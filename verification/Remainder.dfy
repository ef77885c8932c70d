/** IEEE 754 arithmetic on doubles, rounding to nearest with ties to even, counted
    in units of 2^-1074. */
module DoubleArithmetic {
  import opened Bits
  import opened Doubles

  /** m / 2^s rounded to the nearest integer, ties to even. */
  function RoundShift(m: nat, s: nat): nat {
    var q, r := Shr(m, s), LowBits(m, s);
    if 2 * r > Pow2(s) || (2 * r == Pow2(s) && q % 2 == 1) then q + 1 else q
  }

  /** The number of low bits that do not fit a 53-bit significand. */
  function Excess(m: nat): nat {
    if m < 0x20_0000_0000_0000 then 0 else 1 + Excess(m / 2)
  }

  /** The double nearest a magnitude, infinity beyond the largest finite one. */
  function RoundMag(negative: bool, m: nat): Double {
    var e := Excess(m);
    var q := RoundShift(m, e);
    if q < 0x10_0000_0000_0000 then Compose(negative, 0, q)
    else if q < 0x20_0000_0000_0000 then Compose(negative, e + 1, q - 0x10_0000_0000_0000)
    else Compose(negative, e + 2, 0)
  }

  function Compose(negative: bool, exponent: nat, fraction: nat): Double {
    if exponent >= 2047 then Double(SignBit(negative) + 0x7ff0_0000, 0)
    else Double(SignBit(negative) + exponent * 0x10_0000 + fraction / 0x1_0000_0000 % 0x10_0000,
                fraction % 0x1_0000_0000)
  }

  /** A sum of finite numbers; an exact zero is positive unless both are negative. */
  function Add(a: Double, b: Double): Double
    requires a.Finite() && b.Finite()
  {
    Round(a.Value() + b.Value(), a.Negative() && b.Negative())
  }

  function Round(v: int, negativeZero: bool): Double {
    RoundMag(v < 0 || (v == 0 && negativeZero), Abs(v))
  }

  function Fabs(a: Double): Double { Double(a.AbsHi(), a.lo) }

  function Negate(a: Double): Double {
    Double(if a.Negative() then a.hi - 0x8000_0000 else a.hi + 0x8000_0000, a.lo)
  }

  /** The sign flipped when `s` is the sign bit. */
  function Sub(a: Double, b: Double): Double
    requires a.Finite() && b.Finite()
  {
    NegateParts(b);
    Add(a, Negate(b))
  }

  lemma NegateParts(b: Double)
    ensures var c := Negate(b);
      c.AbsHi() == b.AbsHi() && c.lo == b.lo && c.Negative() == !b.Negative() && c.Mag() == b.Mag()
  {
    assert (b.hi + 0x8000_0000) % 0x8000_0000 == b.hi % 0x8000_0000;
  }

  /** Half of a number that is not a NaN. */
  function Half(a: Double): Double {
    if a.Finite() then RoundMag(a.Negative(), RoundShift(a.Mag(), 1)) else a
  }

  /** Comparison of numbers other than NaN. Infinity's fields read as a magnitude
      give 2^2098, which is above every finite one. */
  predicate Greater(a: Double, b: Double) { a.Value() > b.Value() }

  // ------------------------------------------------------------------ exactness

  /** A magnitude with a significand of at most 53 bits. */
  ghost predicate Fits(m: nat) {
    exists f: nat, k: nat :: f < 0x20_0000_0000_0000 && m == Scale(f, k)
  }

  lemma {:induction false} ExcessBounds(m: nat)
    requires m >= 0x20_0000_0000_0000
    ensures Pow2(52 + Excess(m)) <= m < Pow2(53 + Excess(m))
  {
    Pow2Values();
    if m / 2 >= 0x20_0000_0000_0000 { ExcessBounds(m / 2); }
  }

  /** What fits has no bit among the low ones that its excess asks to drop. */
  lemma FitsShift(m: nat)
    requires Fits(m)
    ensures var e := Excess(m);
      && LowBits(m, e) == 0 && m == Scale(Shr(m, e), e)
      && Shr(m, e) < 0x20_0000_0000_0000
      && (e > 0 ==> Shr(m, e) >= 0x10_0000_0000_0000)
  {
    if m >= 0x20_0000_0000_0000 {
      var f: nat, k: nat :| f < 0x20_0000_0000_0000 && m == Scale(f, k);
      ExcessBounds(m);
      var e := Excess(m);
      Pow2Values();
      ScalePow2(53, k);
      ScaleOrder(0x20_0000_0000_0000, f, k);
      if k < e { Pow2Monotone(53 + k, 52 + e); }
      assert k >= e;
      ScaleTwice(f, k - e, e);
      ShrScale(Scale(f, k - e), e);
      LowBitsSplit(m, e);
      ScalePow2(52, e);
      ScalePow2(53, e);
      ScaleOrder(0x10_0000_0000_0000, Shr(m, e), e);
      ScaleOrder(0x20_0000_0000_0000, Shr(m, e), e);
    }
  }

  /** Below 2^2098, that is below 2^1024 as a real number. */
  ghost predicate InRange(m: nat) {
    forall k: nat :: k >= 2098 ==> m < Pow2(k)
  }

  lemma InRangeBy(m: nat, k: nat)
    requires m < Pow2(k) && k <= 2098
    ensures InRange(m)
  {
    forall l: nat | l >= 2098 ensures m < Pow2(l) { Pow2Monotone(k, l); }
  }

  /** Rounding a magnitude that fits and is in range changes nothing. */
  lemma RoundExact(negative: bool, m: nat)
    requires Fits(m) && InRange(m)
    ensures var d := RoundMag(negative, m);
      d.Finite() && d.Mag() == m && d.Negative() == negative
  {
    FitsShift(m);
    var e := Excess(m);
    var q := Shr(m, e);
    ExactShift(m, e);
    if e > 2045 { ExcessBounds(m); }
    if q < 0x10_0000_0000_0000 {
      ComposeParts(negative, 0, q);
    } else {
      ComposeParts(negative, e + 1, q - 0x10_0000_0000_0000);
    }
  }

  lemma ExactShift(m: nat, e: nat)
    requires LowBits(m, e) == 0
    ensures RoundShift(m, e) == Shr(m, e)
  {
  }

  lemma ComposeParts(negative: bool, e: nat, f: nat)
    requires e < 2047 && f < 0x10_0000_0000_0000
    ensures var d := Compose(negative, e, f);
      d.Finite() && d.Negative() == negative && d.Exponent() == e && d.Fraction() == f
  {
    var h := e * 0x10_0000 + f / 0x1_0000_0000;
    assert f / 0x1_0000_0000 < 0x10_0000;
    assert h < 0x8000_0000 && (SignBit(negative) + h) % 0x8000_0000 == h;
    assert h / 0x10_0000 == e && h % 0x10_0000 == f / 0x1_0000_0000;
  }

  /** Every double's magnitude fits, and is in range when it is finite. */
  lemma DoubleFits(d: Double)
    ensures Fits(d.Mag())
    ensures d.Finite() ==> InRange(d.Mag())
  {
    PatternParts(d);
    var e, f := d.Exponent(), d.Fraction();
    if e == 0 {
      assert d.Mag() == Scale(f, 0);
    } else {
      assert d.Mag() == Scale(f + 0x10_0000_0000_0000, e - 1);
    }
    MagBounds(e, f);
    if d.Finite() { InRangeBy(d.Mag(), 52 + e); }
  }

  lemma TwiceFits(m: nat)
    requires Fits(m)
    ensures Fits(2 * m)
  {
    var f: nat, k: nat :| f < 0x20_0000_0000_0000 && m == Scale(f, k);
    assert 2 * m == Scale(f, k + 1);
  }

  /** Sterbenz: the difference of two numbers within a factor of two of each other
      needs no more bits than they do. */
  lemma DifferenceFits(a: nat, b: nat)
    requires Fits(a) && Fits(b) && a <= 2 * b && b <= 2 * a
    ensures Fits(Abs(a - b))
  {
    var f: nat, k: nat :| f < 0x20_0000_0000_0000 && a == Scale(f, k);
    var g: nat, l: nat :| g < 0x20_0000_0000_0000 && b == Scale(g, l);
    var m := Abs(a - b);
    if k <= l {
      ScaleTwice(g, l - k, k);
      DifferenceSameScale(f, Scale(g, l - k), k, m);
    } else {
      ScaleTwice(f, k - l, l);
      DifferenceSameScale(g, Scale(f, k - l), l, m);
    }
  }

  lemma DifferenceSameScale(f: nat, h: nat, k: nat, m: nat)
    requires f < 0x20_0000_0000_0000 && Scale(h, k) <= 2 * Scale(f, k)
    requires m == Abs(Scale(f, k) - Scale(h, k))
    ensures Fits(m)
  {
    ScaleDouble(f, k);
    ScaleOrder(h, 2 * f, k);
    if f >= h { ScaledGap(f, h, k); } else { ScaledGap(h, f, k); }
    ScaledFits(if f >= h then f - h else h - f, k);
  }

  lemma ScaleDouble(f: nat, k: nat)
    ensures Scale(2 * f, k) == 2 * Scale(f, k)
  {
    ScaleAdd(f, f, k);
  }

  lemma ScaledFits(f: nat, k: nat)
    requires f < 0x20_0000_0000_0000
    ensures Fits(Scale(f, k))
  {
  }

  lemma ScaledGap(a: nat, b: nat, k: nat)
    requires a >= b
    ensures Scale(a, k) - Scale(b, k) == Scale(a - b, k) >= 0
  {
    ScaleAdd(a - b, b, k);
  }
}

/** The IEEE remainder on top of the floating one (src/libm/math/e_remainder.c). */
module Remainder {
  import opened Bits
  import opened Doubles
  import opened DoubleArithmetic
  import opened Fmod

  /** n is the integer nearest a/b, the even one when two are equally near. */
  ghost predicate NearestEven(n: int, a: int, b: int) {
    && 2 * Abs(a - n * b) <= Abs(b)
    && (2 * Abs(a - n * b) == Abs(b) ==> n % 2 == 0)
  }

  /** r is what the nearest multiple of p leaves of x. */
  ghost predicate Nearest(r: int, x: int, p: int) {
    exists n: int :: Differ(r, x, n, p) && NearestEven(n, x, p)
  }

  /** What section 5.3.1 of IEEE 754-2008 asks of the result. */
  ghost predicate IsIeeeRemainder(x: Double, p: Double, r: Double) {
    && r.Finite()
    && Nearest(r.Value(), x.Value(), p.Value())
    && (r.Value() == 0 ==> r.Negative() == x.Negative())
  }

  lemma NearestUnique(n: int, k: int, a: int, b: int)
    requires b != 0 && NearestEven(n, a, b) && NearestEven(k, a, b)
    ensures n == k
  {
    var d := n - k;
    MulSubtract(b, n, k);
    var e := b * d;
    assert Abs(e) <= Abs(b);
    if Abs(d) >= 2 {
      MulMonotone(Abs(b), 2, Abs(d));
      AbsProduct(b, d);
      assert false;
    }
    if d == 1 || d == -1 {
      assert 2 * Abs(a - n * b) == Abs(b) && 2 * Abs(a - k * b) == Abs(b);
    }
  }

  lemma AbsProduct(a: int, b: int)
    ensures Abs(a * b) == Abs(a) * Abs(b)
  {
  }

  /** The requirement determines the result. */
  lemma RemainderUnique(x: Double, p: Double, r: Double, s: Double)
    requires p.Mag() > 0 && IsIeeeRemainder(x, p, r) && IsIeeeRemainder(x, p, s)
    ensures r == s
  {
    NearestValue(r.Value(), s.Value(), x.Value(), p.Value());
    MagInjective(r, s);
  }

  lemma NearestValue(r: int, s: int, x: int, p: int)
    requires p != 0 && Nearest(r, x, p) && Nearest(s, x, p)
    ensures r == s
  {
    var n: int :| Differ(r, x, n, p) && NearestEven(n, x, p);
    var k: int :| Differ(s, x, k, p) && NearestEven(k, x, p);
    NearestUnique(n, k, x, p);
  }

  /** The centred remainder of magnitude a < 2q by q. */
  function Centred(a: int, q: int): int {
    if 2 * a > q then (if 2 * (a - q) >= q then a - 2 * q else a - q) else a
  }

  /** x + x, exactly. */
  method PlusSelf(x: Double) returns (s: Double)
    requires x.Finite() && InRange(2 * x.Mag())
    ensures s.Finite() && s.Value() == 2 * x.Value() && s.Mag() == 2 * x.Mag()
  {
    AddSelf(x);
    s := Add(x, x);
  }

  /** x - p, exactly. */
  method Minus(x: Double, p: Double) returns (s: Double)
    requires x.Finite() && p.Finite() && !x.Negative() && !p.Negative()
    requires x.Mag() <= 2 * p.Mag() && p.Mag() <= 2 * x.Mag()
    ensures s.Finite() && s.Value() == x.Mag() - p.Mag() && s.Mag() == Abs(x.Mag() - p.Mag())
    ensures x.Mag() >= p.Mag() ==> !s.Negative()
  {
    SubExact(x, p);
    s := Sub(x, p);
  }

  /** 0.5 * p, exactly; infinity stays. */
  method Halved(p: Double) returns (h: Double)
    requires !p.NaN() && !p.Negative() && p.AbsHi() >= 0x20_0000
    ensures 2 * h.Value() == if p.Finite() then p.Mag() else 2 * p.Mag()
  {
    HalfExact(p);
    h := Half(p);
  }

  /** Lines 63-67: every operation's exact result is representable. */
  method CentreTiny(x0: Double, p: Double) returns (x: Double)
    requires x0.Finite() && !x0.Negative() && p.Finite() && !p.Negative() && p.Mag() > 0
    requires x0.Mag() < 2 * p.Mag() && p.Mag() < 0x20_0000_0000_0000
    ensures x.Finite() && x.Value() == Centred(x0.Mag(), p.Mag())
    ensures x.Value() == 0 ==> !x.Negative()
  {
    x := x0;
    SmallInRange(2 * x.Mag());
    var twice := PlusSelf(x);
    if Greater(twice, p) {
      x := Minus(x, p);
      SmallInRange(2 * x.Mag());
      twice := PlusSelf(x);
      if !Greater(p, twice) {
        x := Minus(x, p);
      }
    }
  }

  /** Lines 68-74. */
  method CentreLarge(x0: Double, p: Double) returns (x: Double)
    requires x0.Finite() && !x0.Negative() && !p.Negative() && !p.NaN() && p.AbsHi() >= 0x20_0000
    requires x0.Mag() < 2 * p.Mag()
    ensures x.Finite()
    ensures p.Infinite() ==> x == x0
    ensures p.Finite() ==> x.Value() == Centred(x0.Mag(), p.Mag())
    ensures p.Finite() && x.Value() == 0 ==> !x.Negative()
  {
    x := x0;
    var half := Halved(p);
    if p.Infinite() { FiniteBelowInfinity(x, p); }
    if Greater(x, half) {
      x := Minus(x, p);
      if !Greater(half, x) {
        x := Minus(x, p);
      }
    }
  }

  lemma FiniteBelowInfinity(x: Double, p: Double)
    requires x.Finite() && p.Infinite()
    ensures x.Mag() < p.Mag()
  {
    PatternOrder(x, p);
  }

  method Centre(x0: Double, p: Double) returns (x: Double)
    requires x0.Finite() && !x0.Negative() && !p.Negative() && !p.NaN() && p.Mag() > 0
    requires x0.Mag() < 2 * p.Mag()
    ensures x.Finite()
    ensures p.Infinite() ==> x == x0
    ensures p.Finite() ==> x.Value() == Centred(x0.Mag(), p.Mag())
    ensures p.Finite() && x.Value() == 0 ==> !x.Negative()
  {
    if p.AbsHi() < 0x20_0000 {
      TinyBound(p);
      x := CentreTiny(x0, p);
    } else {
      x := CentreLarge(x0, p);
    }
  }

  lemma TinyBound(p: Double)
    requires p.AbsHi() < 0x20_0000
    ensures p.Finite() && p.Mag() < 0x20_0000_0000_0000
  {
    PatternParts(p);
    assert p.Exponent() <= 1;
  }

  lemma SmallInRange(m: nat)
    requires m < 0x80_0000_0000_0000
    ensures InRange(m)
  {
    Pow2Values();
    Pow2Add(53, 2);
    InRangeBy(m, 55);
  }

  /** Doubling a small number is exact. */
  lemma AddSelf(x: Double)
    requires x.Finite() && InRange(2 * x.Mag())
    ensures var s := Add(x, x);
      s.Finite() && s.Value() == 2 * x.Value() && s.Negative() == x.Negative() && s.Mag() == 2 * x.Mag()
  {
    DoubleFits(x);
    DoublingRound(x.Negative(), x.Mag());
    assert Add(x, x) == Round(Signed(x.Negative(), x.Mag()) + Signed(x.Negative(), x.Mag()), x.Negative());
  }

  lemma DoublingRound(negative: bool, m: nat)
    requires Fits(m) && InRange(2 * m)
    ensures var s, v := Round(Signed(negative, m) + Signed(negative, m), negative), Signed(negative, m);
      s.Finite() && s.Mag() == 2 * m && s.Negative() == negative && s.Value() == 2 * v
  {
    TwiceFits(m);
    RoundExact(negative, 2 * m);
  }

  /** The subtraction of numbers within a factor of two of each other is exact. */
  lemma SubExact(x: Double, p: Double)
    requires x.Finite() && p.Finite() && !x.Negative() && !p.Negative()
    requires x.Mag() <= 2 * p.Mag() && p.Mag() <= 2 * x.Mag()
    ensures var s := Sub(x, p); s.Finite() && s.Value() == x.Mag() - p.Mag()
    ensures x.Mag() >= p.Mag() ==> !Sub(x, p).Negative()
    ensures Sub(x, p).Mag() == Abs(x.Mag() - p.Mag())
  {
    var v := x.Mag() - p.Mag();
    DoubleFits(x);
    DoubleFits(p);
    DifferenceFits(x.Mag(), p.Mag());
    NegateParts(p);
    RoundExact(v < 0, Abs(v));
  }

  /** Halving a number well above the subnormal range is exact. */
  lemma HalfExact(p: Double)
    requires !p.NaN() && !p.Negative() && p.AbsHi() >= 0x20_0000
    ensures 2 * Half(p).Value() == if p.Finite() then p.Mag() else 2 * p.Mag()
  {
    if p.Finite() {
      PatternParts(p);
      var f, e := p.Fraction() + 0x10_0000_0000_0000, p.Exponent();
      assert e >= 2;
      DoubleFits(p);
      assert p.Mag() == 2 * Scale(f, e - 2);
      HalfOfEven(p.Mag(), Scale(f, e - 2));
      RoundExact(false, Scale(f, e - 2));
    }
  }

  lemma HalfOfEven(m: nat, h: nat)
    requires m == 2 * h
    ensures RoundShift(m, 1) == h
  {
    assert Shr(m, 1) == h && LowBits(m, 1) == 0;
  }

  /** The last step of the algorithm finds the nearest multiple. */
  lemma CentredNearest(m: nat, q: nat, t: int) returns (k: int)
    requires q > 0 && t == Centred(m % (2 * q), q)
    ensures t == m - k * q && NearestEven(k, m, q)
  {
    var j, z, a := TwoParts(m, q);
    k := CentredHere(m, q, j, z, a, t);
  }

  lemma TwoParts(m: nat, q: nat) returns (j: nat, z: nat, a: nat)
    requires q > 0
    ensures z == q * j && m == 2 * z + a && a == m % (2 * q) && a < 2 * q
  {
    j, a := m / (2 * q), m % (2 * q);
    z := q * j;
    DivMod(m, 2 * q);
    MulAssoc(2, q, j);
  }

  lemma CentredHere(m: nat, q: nat, j: nat, z: nat, a: nat, t: int) returns (k: int)
    requires q > 0 && z == q * j && m == 2 * z + a && a < 2 * q && t == Centred(a, q)
    ensures t == m - k * q && NearestEven(k, m, q)
  {
    var c := if 2 * a > q then (if 2 * (a - q) >= q then 2 else 1) else 0;
    k := 2 * j + c;
    CentredAt(m, q, j, z, a, c, k);
  }

  lemma CentredAt(m: nat, q: nat, j: nat, z: nat, a: nat, c: nat, k: nat)
    requires q > 0 && z == q * j && m == 2 * z + a && a < 2 * q && k == 2 * j + c
    requires c == if 2 * a > q then (if 2 * (a - q) >= q then 2 else 1) else 0
    ensures Centred(a, q) == m - k * q && NearestEven(k, m, q)
  {
    var n := k * q;
    MulDistribute(q, 2 * j, c);
    MulAssoc(2, q, j);
    assert n == 2 * z + (if c == 0 then 0 else if c == 1 then q else 2 * q);
    assert k % 2 == c % 2;
    assert 2 * Abs(m - n) <= q && (2 * Abs(m - n) == q ==> k % 2 == 0);
  }

  /** The sign of x, flipped onto the centred remainder of the magnitudes. */
  lemma SignedNearest(x: Double, p: Double, r: Double, t: int)
    requires p.Mag() > 0 && t == Centred(x.Mag() % (2 * p.Mag()), p.Mag())
    requires r.Finite() && r.Value() == Signed(x.Negative(), t) && (t == 0 ==> r.Negative() == x.Negative())
    ensures IsIeeeRemainder(x, p, r)
  {
    var k := CentredNearest(x.Mag(), p.Mag(), t);
    var n := Signed(x.Negative() != p.Negative(), k);
    NearestSigned(x.Negative(), p.Negative(), x.Mag(), p.Mag(), t, n, k);
    assert Differ(r.Value(), x.Value(), n, p.Value()) && NearestEven(n, x.Value(), p.Value());
  }

  lemma NearestSigned(nx: bool, ny: bool, mx: nat, my: nat, t: int, n: int, k: int)
    requires n == Signed(nx != ny, k) && t == mx - k * my && NearestEven(k, mx, my)
    ensures Differ(Signed(nx, t), Signed(nx, mx), n, Signed(ny, my))
    ensures NearestEven(n, Signed(nx, mx), Signed(ny, my))
  {
    SignedQuotient(nx, ny, mx, my, t, n, k);
    assert n % 2 == 0 <==> k % 2 == 0;
  }

  /** p + p does not overflow when the exponent of p leaves room. */
  lemma TwiceExact(p: Double)
    requires p.AbsHi() <= 0x7fdf_ffff
    ensures var s := Add(p, p); s.Finite() && s.Mag() == 2 * p.Mag()
  {
    PatternParts(p);
    var e := p.Exponent();
    MagBounds(e, p.Fraction());
    InRangeBy(2 * p.Mag(), 53 + e);
    AddSelf(p);
  }

  lemma HugeDivisor(x: Double, p: Double)
    requires x.Finite() && p.AbsHi() > 0x7fdf_ffff
    ensures x.Mag() < 2 * p.Mag()
  {
    PatternParts(x);
    PatternParts(p);
    LargestExponent(x, p);
    OneBinade(x.Exponent(), x.Fraction(), p.Exponent(), p.Fraction());
  }

  lemma LargestExponent(x: Double, p: Double)
    requires x.Finite() && p.AbsHi() > 0x7fdf_ffff
    ensures x.Exponent() <= 2046 <= p.Exponent()
  {
  }

  /** Twice what has the larger exponent is the larger number. */
  lemma OneBinade(ea: nat, fa: nat, eb: nat, fb: nat)
    requires fa < 0x10_0000_0000_0000 && fb < 0x10_0000_0000_0000 && ea <= eb && 0 < eb
    ensures MagOf(ea, fa) < 2 * MagOf(eb, fb)
  {
    MagBounds(ea, fa);
    MagBounds(eb, fb);
    Pow2Monotone(52 + ea, 52 + eb);
  }

  lemma FabsParts(x: Double)
    ensures var f := Fabs(x); f.AbsHi() == x.AbsHi() && f.Mag() == x.Mag() && !f.Negative()
  {
    assert x.AbsHi() % 0x8000_0000 == x.AbsHi();
  }

  lemma FlipSign(t: Double, negative: bool)
    requires t.Finite()
    ensures Xor(t.hi, SignBit(negative)) < 0x1_0000_0000
    ensures var r := Double(Xor(t.hi, SignBit(negative)), t.lo);
      && r.Finite() && r.Value() == Signed(negative, t.Value())
      && r.Negative() == (t.Negative() != negative)
      && r.AbsHi() == t.AbsHi()
  {
    XorSign(t.hi);
    if negative { NegateParts(t); }
  }

  lemma XorSign(h: Word)
    ensures Xor(h, 0) == h
    ensures Xor(h, 0x8000_0000) == if h >= 0x8000_0000 then h - 0x8000_0000 else h + 0x8000_0000
  {
    Pow2Values();
    TopBit(h, 31);
    XorZero(h);
  }

  lemma RestoreSign(x: Double)
    ensures Xor(Fabs(x).hi, SignBit(x.Negative())) == x.hi
  {
    var h := x.AbsHi();
    XorSign(h);
    assert x.hi == h + SignBit(x.Negative());
    assert h < 0x8000_0000;
  }

  /** zero * x for a finite x. */
  function TimesZero(x: Double): Double { Double(SignBit(x.Negative()), 0) }

  /** The exception tests of lines 52-56. */
  method Excluded(x: Double, p: Double, hx: nat, hp: nat) returns (b: bool)
    requires hx == x.AbsHi() && hp == p.AbsHi()
    ensures b <==> !x.Finite() || p.NaN() || (p.Finite() && p.Mag() == 0)
  {
    var lp := p.lo;
    OrIsZero(hp, lp);
    ZeroMeans(p);
    if Or(hp, lp) == 0 { return true; }
    if hp >= 0x7ff0_0000 { OrIsZero(hp - 0x7ff0_0000, lp); }
    b := hx >= 0x7ff0_0000 || (hp >= 0x7ff0_0000 && Or(hp - 0x7ff0_0000, lp) != 0);
  }

  /** __ieee754_remainder. */
  method Remainder(x0: Double, p: Double) returns (r: Outcome)
    ensures r.Invalid? <==> !x0.Finite() || p.NaN() || (p.Finite() && p.Mag() == 0)
    ensures r.Result? ==> if p.Finite() then IsIeeeRemainder(x0, p, r.d) else r.d == x0
  {
    var x := x0;
    var sx, _ := SplitSign(x.hi);
    var hx := MaskSign(x.hi);
    var hp := MaskSign(p.hi);
    var lx, lp := x.lo, p.lo;
    var bad := Excluded(x, p, hx, hp);
    if bad { return Invalid; }

    x := ReduceByTwice(x0, p, hp);
    SameWords(hx, hp, lx, lp);
    if Or(Difference(hx, hp), Difference(lx, lp)) == 0 {
      ZeroRemainder(x0, p);
      return Result(TimesZero(x));
    }
    FabsParts(x);
    FabsParts(p);
    x := Centre(Fabs(x), Fabs(p));
    ghost var t := x;
    FlipSign(t, x0.Negative());
    x := Double(Xor(x.hi, sx), x.lo);
    r := Result(x);
    if p.Finite() {
      SignedNearest(x0, p, x, t.Value());
    } else {
      RestoreSign(x0);
    }
  }

  /** The difference of two words, as a word. */
  function Difference(a: Word, b: Word): Word { (a as int - b as int) % 0x1_0000_0000 }

  lemma SameWords(a: Word, b: Word, c: Word, d: Word)
    ensures Or(Difference(a, b), Difference(c, d)) == 0 <==> a == b && c == d
  {
    OrIsZero(Difference(a, b), Difference(c, d));
  }

  /** Line 59: |x| comes below 2|p|, either by fmod or because p is huge. */
  method ReduceByTwice(x0: Double, p: Double, hp: nat) returns (x: Double)
    requires x0.Finite() && !p.NaN() && (p.Finite() ==> p.Mag() > 0) && hp == p.AbsHi()
    ensures x.Finite() && x.Negative() == x0.Negative()
    ensures p.Finite() ==> x.Mag() == x0.Mag() % (2 * p.Mag())
    ensures p.Infinite() ==> x == x0
    ensures x.Mag() < 2 * p.Mag()
  {
    if hp <= 0x7fdf_ffff {
      TwiceExact(p);
      var reduced := Fmod.Fmod(x0, Add(p, p));
      RemainderDetermined(x0, Add(p, p), reduced.d);
      x := reduced.d;
    } else {
      HugeDivisor(x0, p);
      ModUnique(x0.Mag(), 2 * p.Mag(), 0, x0.Mag());
      x := x0;
    }
  }

  lemma ZeroRemainder(x: Double, p: Double)
    requires x.AbsHi() == p.AbsHi() && x.lo == p.lo && p.Mag() > 0
    ensures TimesZero(x).Mag() == 0 && TimesZero(x).Negative() == x.Negative()
    ensures IsIeeeRemainder(x, p, TimesZero(x))
  {
    EqualVanishes(x, p);
    var m := p.Mag();
    ModUnique(x.Mag(), 2 * m, 0, m);
    SignedNearest(x, p, TimesZero(x), 0);
  }
}
