/** IEEE 754 double precision numbers as a pair of 32-bit words, and the number
    each finite one stands for, counted in units of 2^-1074. */
module Doubles {
  import opened Bits

  datatype Double = Double(hi: Word, lo: Word) {

    predicate Negative() { hi >= 0x8000_0000 }

    /** The high word without its sign bit. */
    function AbsHi(): nat { hi % 0x8000_0000 }

    function Exponent(): nat { AbsHi() / 0x10_0000 }

    function Fraction(): nat { AbsHi() % 0x10_0000 * 0x1_0000_0000 + lo }

    predicate Finite() { AbsHi() < 0x7ff0_0000 }

    predicate Infinite() { AbsHi() == 0x7ff0_0000 && lo == 0 }

    predicate NaN() { !Finite() && !Infinite() }

    /** The magnitude of a finite number. */
    function Mag(): nat { MagOf(Exponent(), Fraction()) }

    function Value(): int { Signed(Negative(), Mag()) }

    /** The magnitude's bit pattern, which orders as the magnitude does. */
    function Pattern(): nat { AbsHi() * 0x1_0000_0000 + lo }
  }

  function MagOf(exponent: nat, fraction: nat): nat {
    if exponent == 0 then fraction
    else Scale(fraction + 0x10_0000_0000_0000, exponent - 1)
  }

  function Signed(negative: bool, m: int): int { if negative then -m else m }

  function SignBit(negative: bool): Word { if negative then 0x8000_0000 else 0 }

  lemma MagBounds(e: nat, f: nat)
    requires f < 0x10_0000_0000_0000
    ensures e == 0 ==> MagOf(e, f) < Pow2(52)
    ensures e > 0 ==> Pow2(51 + e) <= MagOf(e, f) < Pow2(52 + e)
  {
    Pow2Values();
    if e > 0 {
      ScalePow2(52, e - 1);
      ScalePow2(53, e - 1);
      ScaleOrder(0x10_0000_0000_0000, f + 0x10_0000_0000_0000, e - 1);
      ScaleOrder(0x20_0000_0000_0000, f + 0x10_0000_0000_0000, e - 1);
    }
  }

  lemma MagOrder(ea: nat, fa: nat, eb: nat, fb: nat)
    requires fa < 0x10_0000_0000_0000 && fb < 0x10_0000_0000_0000
    requires ea < eb || (ea == eb && fa < fb)
    ensures MagOf(ea, fa) < MagOf(eb, fb)
  {
    if ea < eb {
      MagBounds(ea, fa);
      MagBounds(eb, fb);
      Pow2Monotone(52 + ea, 51 + eb);
    } else if ea > 0 {
      ScaleOrder(fb + 0x10_0000_0000_0000, fa + 0x10_0000_0000_0000, ea - 1);
    }
  }

  lemma PatternParts(d: Double)
    ensures d.Pattern() == d.Exponent() * 0x10_0000_0000_0000 + d.Fraction()
    ensures d.Fraction() < 0x10_0000_0000_0000
  {
  }

  lemma SplitPattern(ea: nat, fa: nat, eb: nat, fb: nat)
    requires fa < 0x10_0000_0000_0000 && fb < 0x10_0000_0000_0000
    requires ea * 0x10_0000_0000_0000 + fa < eb * 0x10_0000_0000_0000 + fb
    ensures ea < eb || (ea == eb && fa < fb)
  {
  }

  /** Bit patterns order as the numbers they stand for. */
  lemma PatternOrder(a: Double, b: Double)
    requires a.Pattern() < b.Pattern()
    ensures a.Mag() < b.Mag()
  {
    PatternParts(a);
    PatternParts(b);
    SplitPattern(a.Exponent(), a.Fraction(), b.Exponent(), b.Fraction());
    MagOrder(a.Exponent(), a.Fraction(), b.Exponent(), b.Fraction());
  }

  /** A magnitude and a sign determine the number. */
  lemma MagInjective(a: Double, b: Double)
    requires a.Mag() == b.Mag() && a.Negative() == b.Negative()
    ensures a == b
  {
    if a.Pattern() < b.Pattern() {
      PatternOrder(a, b);
    } else if b.Pattern() < a.Pattern() {
      PatternOrder(b, a);
    } else {
      PatternFixes(a, b);
    }
  }

  lemma PatternFixes(a: Double, b: Double)
    requires a.Pattern() == b.Pattern() && a.Negative() == b.Negative()
    ensures a == b
  {
  }
}
