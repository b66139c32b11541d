/** fpclassify and signbit: reading the class of a number off its bits. */
module Classify {
  import opened Bits
  import opened Float

  const FP_NAN: nat := 0x0100
  const FP_NORMAL: nat := 0x0400
  const FP_INFINITE: nat := Or(FP_NAN, FP_NORMAL)
  const FP_ZERO: nat := 0x4000
  const FP_SUBNORMAL: nat := Or(FP_NORMAL, FP_ZERO)

  /** __fpclassify and __fpclassifyf; the two left shifts drop the sign, and everything but the fraction. */
  function FpClassify(f: Format, b: nat): nat {
    var width := 1 + f.ebits + f.frac;
    var e := ExponentField(f, b);
    if e == 0 then (if Shl(width, b, 1) != 0 then FP_SUBNORMAL else FP_ZERO)
    else if e == Pow2(f.ebits) - 1 then (if Shl(width, b, 1 + f.ebits) != 0 then FP_NAN else FP_INFINITE)
    else FP_NORMAL
  }

  predicate FpIsFinite(f: Format, b: nat) { And(FpClassify(f, b), FP_NAN) == 0 }
  predicate FpIsInf(f: Format, b: nat) { FpClassify(f, b) == FP_INFINITE }
  predicate FpIsNan(f: Format, b: nat) { FpClassify(f, b) == FP_NAN }
  predicate FpIsNormal(f: Format, b: nat) { FpClassify(f, b) == FP_NORMAL }

  lemma ClassCodes()
    ensures FP_INFINITE == 0x0500 && FP_SUBNORMAL == 0x4400
    ensures And(FP_NAN, FP_NAN) != 0 && And(FP_INFINITE, FP_NAN) != 0
    ensures And(FP_NORMAL, FP_NAN) == 0 && And(FP_ZERO, FP_NAN) == 0 && And(FP_SUBNORMAL, FP_NAN) == 0
  {
    SmallClassCodes();
    hide And, Or;
    ScaledCodes();
    DoubledBoth(1, 4, 8);
    DoubledBoth(4, 64, 8);
    DoubledBoth(1, 1, 8);
    DoubledBoth(5, 1, 8);
    DoubledBoth(4, 1, 8);
    DoubledBoth(64, 1, 8);
    DoubledBoth(68, 1, 8);
  }

  lemma ScaledCodes()
    ensures Doubled(1, 8) == FP_NAN && Doubled(4, 8) == FP_NORMAL && Doubled(64, 8) == FP_ZERO
    ensures Doubled(5, 8) == 0x500 && Doubled(68, 8) == 0x4400 && Doubled(0, 8) == 0
  {
  }

  lemma SmallClassCodes()
    ensures Or(1, 4) == 5 && Or(4, 64) == 68
    ensures And(1, 1) == 1 && And(5, 1) == 1 && And(4, 1) == 0 && And(64, 1) == 0 && And(68, 1) == 0
  {
  }

  lemma ExponentMax(f: Format)
    requires f.Valid()
    ensures Pow2(f.ebits) - 1 > 0 && f.P() <= f.Inf()
  {
    Pow2Mono(1, f.ebits);
    Pow2Add(f.ebits, f.frac);
    OneLess(Pow2(f.ebits), f.P());
    MulOrder(2, Pow2(f.ebits), f.P());
  }

  lemma CodeParts(f: Format, b: nat)
    requires f.Valid() && IsPattern(f, b)
    ensures b % f.SignBit() == Code(f, b) && b % f.P() == Code(f, b) % f.P()
  {
    var c, p, m := Code(f, b), f.P(), Pow2(f.ebits);
    var k := if Negative(f, b) then 1 else 0;
    Pow2Add(f.ebits, f.frac);
    hide Pow2;
    DivModUnique(b, f.SignBit(), k, c);
    FloorBounds(c, p, c / p);
    Regroup(k, m, p, c / p);
    DivModUnique(b, p, k * m + c / p, c % p);
  }

  /** The extreme exponents. */
  lemma ExponentExtremes(f: Format, c: nat)
    requires f.Valid() && c < f.SignBit()
    ensures c / f.P() == 0 <==> c < f.P()
    ensures c / f.P() == Pow2(f.ebits) - 1 <==> f.Inf() <= c
    ensures c >= f.Inf() ==> c % f.P() == c - f.Inf()
  {
    var p, m := f.P(), Pow2(f.ebits);
    Pow2Add(f.ebits, f.frac);
    OneLess(m, p);
    FloorBounds(c, p, c / p);
    if c < p {
      SmallMod(c, p);
    }
    if f.Inf() <= c {
      DivModUnique(c, p, m - 1, c - f.Inf());
    }
  }

  /** The two left shifts of the classification. */
  lemma ShiftTests(f: Format, b: nat)
    requires f.Valid() && IsPattern(f, b)
    ensures Shl(1 + f.ebits + f.frac, b, 1) == 0 <==> Code(f, b) == 0
    ensures Shl(1 + f.ebits + f.frac, b, 1 + f.ebits) == 0 <==> Code(f, b) % f.P() == 0
  {
    hide Shl;
    CodeParts(f, b);
    ShlZero(1 + f.ebits + f.frac, b, 1);
    ShlZero(1 + f.ebits + f.frac, b, 1 + f.ebits);
  }

  lemma ClassOfCode(f: Format, b: nat)
    requires f.Valid() && IsPattern(f, b)
    ensures FpClassify(f, b) ==
            var c := Code(f, b);
            if c == 0 then FP_ZERO else if c < f.P() then FP_SUBNORMAL
            else if c < f.Inf() then FP_NORMAL else if c == f.Inf() then FP_INFINITE else FP_NAN
  {
    hide Shl, ExponentField, Pow2, Or;
    var c := Code(f, b);
    Fields(f, b);
    ExponentExtremes(f, c);
    ExponentMax(f);
    ShiftTests(f, b);
    if c < f.P() { SmallMod(c, f.P()); }
  }

  /** Each pattern has exactly one class, and it is the class of the value it stands for. */
  lemma ClassOfValue(f: Format, b: nat)
    requires f.Valid() && IsPattern(f, b)
    ensures var c := FpClassify(f, b);
            && (c == FP_NAN <==> IsNaN(f, b))
            && (c == FP_INFINITE <==> !IsNaN(f, b) && !IsFinite(f, b))
            && (c == FP_ZERO <==> Value(f, b) == 0)
            && (c == FP_SUBNORMAL <==> Value(f, b) != 0 && Mag(f.P(), Code(f, b)) < f.P())
            && (c == FP_NORMAL <==> IsFinite(f, b) && f.P() <= Mag(f.P(), Code(f, b)))
  {
    ClassCodes();
    ClassOfCode(f, b);
    ExponentMax(f);
    MagAtLeast(f.P(), Code(f, b));
    assert Code(f, b) < f.P() ==> Mag(f.P(), Code(f, b)) == Code(f, b);
    hide FpClassify, Mag, Pow2, And, Or;
  }

  /** isfinite, isinf, isnan and isnormal. */
  lemma MacrosAgree(f: Format, b: nat)
    requires f.Valid() && IsPattern(f, b)
    ensures FpIsFinite(f, b) == IsFinite(f, b)
    ensures FpIsNan(f, b) == IsNaN(f, b)
    ensures FpIsInf(f, b) <==> Code(f, b) == f.Inf()
    ensures FpIsNormal(f, b) <==> IsFinite(f, b) && f.P() <= Mag(f.P(), Code(f, b))
  {
    ClassCodes();
    ClassOfValue(f, b);
  }
}
