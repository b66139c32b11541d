/** IEEE 754-2008 binary interchange formats: bit patterns, exact values, and correctly rounded addition.
  * The value of a finite number is an integer, counted in units of the format's smallest subnormal.
  */
module Float {
  import opened Bits

  /** frac bits of fraction field, ebits bits of biased exponent, one sign bit. */
  datatype Format = Format(frac: nat, ebits: nat) {
    /** Patterns of one binade. */
    function P(): (p: nat)
      ensures p > 0
    {
      Pow2(frac)
    }

    function SignBit(): (s: nat)
      ensures s > 0
    {
      Pow2(ebits + frac)
    }

    /** The pattern of plus infinity. */
    function Inf(): nat {
      Pow2Mono(frac, ebits + frac);
      SignBit() - P()
    }

    function Bias(): nat {
      if ebits == 0 then 0 else Pow2(ebits - 1) - 1
    }

    predicate Valid() { frac >= 1 && ebits >= 2 }
  }

  const BINARY64 := Format(52, 11)
  const BINARY32 := Format(23, 8)

  // ----- Patterns

  predicate IsPattern(f: Format, b: nat) {
    b < 2 * f.SignBit()
  }

  predicate Negative(f: Format, b: nat) {
    b >= f.SignBit()
  }

  /** The pattern without its sign bit. */
  function Code(f: Format, b: nat): nat {
    if Negative(f, b) then b - f.SignBit() else b
  }

  function Pack(f: Format, neg: bool, code: nat): nat {
    if neg then f.SignBit() + code else code
  }

  predicate IsFinite(f: Format, b: nat) { Code(f, b) < f.Inf() }
  predicate IsNaN(f: Format, b: nat) { Code(f, b) > f.Inf() }

  /** -x */
  function Negate(f: Format, b: nat): nat {
    Pack(f, !Negative(f, b), Code(f, b))
  }

  /** The exponent field as C code reads it: u >> frac & mask. */
  function ExponentField(f: Format, b: nat): nat {
    And(Shr(b, f.frac), Pow2(f.ebits) - 1)
  }

  /** The sign bit as C code reads it: u >> (width - 1). */
  function SignField(f: Format, b: nat): nat {
    Shr(b, f.ebits + f.frac)
  }

  lemma Fields(f: Format, b: nat)
    requires IsPattern(f, b)
    ensures ExponentField(f, b) == Code(f, b) / f.P()
    ensures SignField(f, b) == if Negative(f, b) then 1 else 0
  {
    var p, m, c := f.P(), Pow2(f.ebits), Code(f, b);
    var k := if Negative(f, b) then 1 else 0;
    ShrIsDiv(b, f.frac);
    ShrIsDiv(b, f.ebits + f.frac);
    LowMask(b / p, f.ebits);
    Pow2Add(f.ebits, f.frac);
    FieldParts(b, k, m, p, c);
  }

  lemma FieldParts(b: nat, k: nat, m: nat, p: nat, c: nat)
    requires m > 0 && p > 0 && c < m * p && b == k * (m * p) + c
    ensures b / p % m == c / p && b / (m * p) == k
  {
    var q, r := c / p, c % p;
    FloorBounds(c, p, q);
    if q >= m { MulOrder(m, q, p); }
    assert b == (k * m + q) * p + r by { Regroup(k, m, p, q); }
    DivModUnique(b, p, k * m + q, r);
    DivModUnique(b / p, m, k, q);
    DivModUnique(b, m * p, k, c);
  }

  lemma Regroup(k: int, m: int, p: int, q: int)
    ensures k * (m * p) + q * p == (k * m + q) * p
  {
  }

  // ----- Values

  /** The magnitude a code stands for; p is the number of codes in a binade.
    * Codes are not bounded here, so this enumerates every number of the precision in increasing order.
    */
  function Mag(p: nat, c: nat): nat
    requires p > 0
  {
    if c < 2 * p then c else 2 * Mag(p, c - p)
  }

  function Value(f: Format, b: nat): int {
    var m: int := Mag(f.P(), Code(f, b));
    if Negative(f, b) then -m else m
  }

  /** The definition of section 3.4: subnormals are frac, normals (2^t + frac) * 2^(e-1). */
  lemma {:induction false} MagByFields(p: nat, c: nat)
    requires p > 0
    ensures Mag(p, c) == if c / p == 0 then c % p else (p + c % p) * Pow2(c / p - 1)
  {
    if c < p {
      SmallMod(c, p);
    } else if c < 2 * p {
      DivModUnique(c, p, 1, c - p);
      assert Pow2(0) == 1;
    } else {
      var q, r := (c - p) / p, (c - p) % p;
      assert c - p == q * p + r;
      assert c == (q + 1) * p + r;
      DivModUnique(c, p, q + 1, r);
      assert q >= 1 by {
        if q <= 0 { MulOrder(q, 0, p); }
      }
      MagByFields(p, c - p);
      assert (p + r) * Pow2(q) == 2 * ((p + r) * Pow2(q - 1)) by { Doubling(p + r, Pow2(q - 1)); }
    }
  }

  /** Every magnitude is a significand of the precision times a power of two. */
  lemma Significand(p: nat, c: nat) returns (n: nat, e: nat)
    requires p > 0
    ensures n < 2 * p && Mag(p, c) == n * Pow2(e) && e == if c < p then 0 else c / p - 1
  {
    MagByFields(p, c);
    hide Mag;
    assert Pow2(0) == 1;
    if c < p {
      SmallMod(c, p);
      n, e := c, 0;
    } else {
      assert c / p >= 1 by { DivOrder(c, p, 1); }
      n, e := p + c % p, c / p - 1;
    }
  }

  lemma DivOrder(c: nat, p: nat, e: nat)
    requires p > 0
    ensures e <= c / p <==> e * p <= c
  {
    QuotientBelow(c, p, e);
  }

  lemma {:induction false} MagIncreases(p: nat, c: nat, d: nat)
    requires p > 0 && c < d
    ensures Mag(p, c) < Mag(p, d)
    decreases d
  {
    if d >= 2 * p {
      if c >= 2 * p {
        MagIncreases(p, c - p, d - p);
      } else {
        MagAtLeast(p, d - p);
        if c > p { MagIncreases(p, c - p, d - p); assert Mag(p, c - p) == c - p; }
      }
    }
  }

  lemma {:induction false} MagAtLeast(p: nat, c: nat)
    requires p > 0
    ensures c >= p ==> Mag(p, c) >= p
    ensures Mag(p, c) == 0 <==> c == 0
  {
    if c >= 2 * p { MagAtLeast(p, c - p); }
  }

  lemma MagOrder(p: nat, c: nat, d: nat)
    requires p > 0
    ensures Mag(p, c) < Mag(p, d) <==> c < d
    ensures Mag(p, c) == Mag(p, d) <==> c == d
  {
    if c < d { MagIncreases(p, c, d); }
    if d < c { MagIncreases(p, d, c); }
  }

  /** Going up one binade doubles. */
  lemma {:induction false} MagShift(p: nat, c: nat, k: nat)
    requires p > 0 && c >= p
    ensures Mag(p, c + k * p) == Mag(p, c) * Pow2(k)
  {
    if k > 0 {
      MagShift(p, c, k - 1);
      assert c + k * p - p == c + (k - 1) * p;
      assert c + k * p >= 2 * p by { MulOrder(1, k, p); }
      Doubling(Mag(p, c), Pow2(k - 1));
    }
  }

  // ----- Numbers of the precision

  /** The greatest code whose magnitude does not exceed v. */
  function DownCode(p: nat, v: nat): nat
    requires p > 0
  {
    if v < 2 * p then v else DownCode(p, v / 2) + p
  }

  lemma {:induction false} DownCodeBounds(p: nat, v: nat)
    requires p > 0
    ensures Mag(p, DownCode(p, v)) <= v < Mag(p, DownCode(p, v) + 1)
    ensures v >= p ==> DownCode(p, v) >= p
  {
    if v >= 2 * p {
      DownCodeBounds(p, v / 2);
    }
  }

  lemma DownCodeUnique(p: nat, v: nat, c: nat)
    requires p > 0 && Mag(p, c) <= v < Mag(p, c + 1)
    ensures DownCode(p, v) == c
  {
    DownCodeBounds(p, v);
    MagOrder(p, c, DownCode(p, v) + 1);
    MagOrder(p, DownCode(p, v), c + 1);
  }

  lemma ExactCode(p: nat, v: nat, c: nat)
    requires p > 0 && Mag(p, c) == v
    ensures DownCode(p, v) == c
  {
    MagOrder(p, c, c + 1);
    DownCodeUnique(p, v, c);
  }

  /** n * 2^k is a number of the precision whenever n fits the significand. */
  lemma {:induction false} ScaledCode(p: nat, n: nat, k: nat) returns (c: nat)
    requires p > 0 && n <= 2 * p
    ensures Mag(p, c) == n * Pow2(k)
    decreases k
  {
    if k == 0 {
      assert Pow2(0) == 1;
      c := n;
    } else if n >= p {
      assert Mag(p, n) == n;
      hide Mag;
      MagShift(p, n, k);
      c := n + k * p;
    } else {
      hide Mag;
      c := ScaledCode(p, 2 * n, k - 1);
      assert Mag(p, c) == 2 * n * Pow2(k - 1);
      Doubling(n, Pow2(k - 1));
    }
  }

  // ----- Rounding

  datatype Mode = NearestEven | TowardZero | Upward | Downward

  /** Whether a magnitude v strictly between a and b, the magnitudes of codes lo and lo + 1, goes to b. */
  predicate RoundsAway(mode: Mode, neg: bool, v: nat, a: nat, b: nat, lo: nat) {
    match mode
    case NearestEven => v - a > b - v || (v - a == b - v && lo % 2 == 1)
    case TowardZero => false
    case Upward => !neg
    case Downward => neg
  }

  /** The code v rounds to, with an unbounded exponent range. Numbers of the format count scale units each. */
  function RoundUnbounded(p: nat, scale: nat, mode: Mode, neg: bool, v: nat): nat
    requires p > 0 && scale > 0
  {
    var lo := DownCode(p, v / scale);
    var a, b := Mag(p, lo) * scale, Mag(p, lo + 1) * scale;
    if a != v && RoundsAway(mode, neg, v, a, b, lo) then lo + 1 else lo
  }

  /** Overflow (section 7.4) gives infinity or the largest finite number. */
  function RoundCode(f: Format, scale: nat, mode: Mode, neg: bool, v: nat): nat
    requires scale > 0
  {
    var c := RoundUnbounded(f.P(), scale, mode, neg, v);
    if c < f.Inf() then c
    else if mode == NearestEven || (mode == Upward && !neg) || (mode == Downward && neg) then f.Inf()
    else if f.Inf() > 0 then f.Inf() - 1 else 0
  }

  /** Sums with an operand that is not finite (section 6.1): NaN wins, infinities of opposite signs give a NaN. */
  function AddSpecial(f: Format, a: nat, b: nat): nat {
    if IsNaN(f, a) then a
    else if IsNaN(f, b) then b
    else if IsFinite(f, a) then b
    else if IsFinite(f, b) || Negative(f, a) == Negative(f, b) then a
    else Pack(f, false, f.Inf() + 1)
  }

  /** a + b. A zero sum of finite operands has the sign of section 6.3. */
  function Add(f: Format, mode: Mode, a: nat, b: nat): nat {
    if !IsFinite(f, a) || !IsFinite(f, b) then AddSpecial(f, a, b) else
      var v := Value(f, a) + Value(f, b);
      if v > 0 then Pack(f, false, RoundCode(f, 1, mode, false, v))
      else if v < 0 then Pack(f, true, RoundCode(f, 1, mode, true, -v))
      else Pack(f, if Negative(f, a) == Negative(f, b) then Negative(f, a) else mode == Downward, 0)
  }

  function Sub(f: Format, mode: Mode, a: nat, b: nat): nat {
    Add(f, mode, a, Negate(f, b))
  }

  /** 0 * b for finite b. */
  function TimesZero(f: Format, b: nat): nat {
    Pack(f, Negative(f, b), 0)
  }

  /** a < b; false if either is a NaN. */
  predicate Less(f: Format, a: nat, b: nat) {
    !IsNaN(f, a) && !IsNaN(f, b) && Value(f, a) < Value(f, b)
  }

  /** a <= b; false if either is a NaN. */
  predicate LessEq(f: Format, a: nat, b: nat) {
    !IsNaN(f, a) && !IsNaN(f, b) && Value(f, a) <= Value(f, b)
  }

  // ----- What rounding means

  lemma DownCodeScaled(p: nat, scale: nat, v: nat)
    requires p > 0 && scale > 0
    ensures var lo := DownCode(p, v / scale); Mag(p, lo) * scale <= v < Mag(p, lo + 1) * scale
  {
    var q := v / scale;
    var lo := DownCode(p, q);
    DownCodeBounds(p, q);
    FloorBounds(v, scale, q);
    MulOrder(Mag(p, lo), q, scale);
    MulOrder(q + 1, Mag(p, lo + 1), scale);
  }

  /** Rounding a magnitude up or down in absolute value, or to nearest. */
  predicate TowardLarger(mode: Mode, neg: bool) {
    (mode == Upward && !neg) || (mode == Downward && neg)
  }

  function Distance(x: int, y: int): int { if x <= y then y - x else x - y }

  /** v lies from a up to b, the magnitudes of lo and lo + 1; x, the magnitude of c, is not between them. */
  lemma ChoiceIsCorrect(mode: Mode, neg: bool, v: nat, lo: nat, a: nat, b: nat, c: nat, x: nat)
    requires a <= v < b
    requires if c <= lo then x <= a else b <= x
    requires (x == a ==> c == lo) && (x == b ==> c == lo + 1)
    ensures var up := a != v && RoundsAway(mode, neg, v, a, b, lo);
            var r, y := if up then lo + 1 else lo, if up then b else a;
            if mode == NearestEven then
              Distance(v, y) <= Distance(v, x) && (Distance(v, y) == Distance(v, x) && c != r ==> r % 2 == 0)
            else if TowardLarger(mode, neg) then v <= y && (v <= x ==> r <= c)
            else y <= v && (x <= v ==> c <= r)
  {
  }

  /** Section 4.3: the directed modes give the closest number on their side, the nearest mode the closest
    * number overall and, of two equally close ones, the one with an even significand.
    */
  lemma RoundingIsCorrect(p: nat, scale: nat, mode: Mode, neg: bool, v: nat, c: nat)
    requires p > 0 && scale > 0
    ensures var r := RoundUnbounded(p, scale, mode, neg, v);
            var x, y := Mag(p, c) * scale, Mag(p, r) * scale;
            if mode == NearestEven then
              Distance(v, y) <= Distance(v, x) && (Distance(v, y) == Distance(v, x) && c != r ==> r % 2 == 0)
            else if TowardLarger(mode, neg) then v <= y && (v <= x ==> r <= c)
            else y <= v && (x <= v ==> c <= r)
  {
    hide Mag, DownCode;
    var lo := DownCode(p, v / scale);
    DownCodeScaled(p, scale, v);
    MagScaledOrder(p, scale, c, lo);
    MagScaledOrder(p, scale, c, lo + 1);
    ChoiceIsCorrect(mode, neg, v, lo, Mag(p, lo) * scale, Mag(p, lo + 1) * scale, c, Mag(p, c) * scale);
  }

  lemma MagScaledOrder(p: nat, scale: nat, c: nat, d: nat)
    requires p > 0 && scale > 0
    ensures c <= d ==> Mag(p, c) * scale <= Mag(p, d) * scale
    ensures c >= d ==> Mag(p, c) * scale >= Mag(p, d) * scale
    ensures c < d ==> Mag(p, c) * scale < Mag(p, d) * scale
    ensures c > d ==> Mag(p, c) * scale > Mag(p, d) * scale
  {
    MagOrder(p, c, d);
    MagOrder(p, d, c);
    if c < d {
      MulOrder(Mag(p, c) + 1, Mag(p, d), scale);
      assert (Mag(p, c) + 1) * scale == Mag(p, c) * scale + scale;
    } else if d < c {
      MulOrder(Mag(p, d) + 1, Mag(p, c), scale);
      assert (Mag(p, d) + 1) * scale == Mag(p, d) * scale + scale;
    }
  }

  lemma Squeeze(lo: nat, c: nat, d: nat, v: int, a: int, b: int, x: int, y: int)
    requires a <= v < b && x <= v <= y
    requires (c >= lo + 1 ==> x >= b) && (lo >= d ==> a >= y) && (lo > d ==> a > y)
    ensures c <= lo <= d && (a != v ==> lo < d)
  {
  }

  lemma DownCodeBetween(p: nat, scale: nat, v: nat, c: nat, d: nat)
    requires p > 0 && scale > 0 && Mag(p, c) * scale <= v <= Mag(p, d) * scale
    ensures var lo := DownCode(p, v / scale); c <= lo <= d && (Mag(p, lo) * scale != v ==> lo < d)
  {
    var lo := DownCode(p, v / scale);
    DownCodeScaled(p, scale, v);
    MagScaledOrder(p, scale, c, lo + 1);
    MagScaledOrder(p, scale, lo, d);
    Squeeze(lo, c, d, v, Mag(p, lo) * scale, Mag(p, lo + 1) * scale, Mag(p, c) * scale, Mag(p, d) * scale);
  }

  /** Rounding stays between any two numbers of the precision around v; in particular a number rounds to itself. */
  lemma RoundBetween(p: nat, scale: nat, mode: Mode, neg: bool, v: nat, c: nat, d: nat)
    requires p > 0 && scale > 0 && Mag(p, c) * scale <= v <= Mag(p, d) * scale
    ensures c <= RoundUnbounded(p, scale, mode, neg, v) <= d
  {
    DownCodeBetween(p, scale, v, c, d);
  }

  /** Within the range of the format there is no overflow. */
  lemma RoundCodeBetween(f: Format, scale: nat, mode: Mode, neg: bool, v: nat, c: nat, d: nat)
    requires scale > 0 && Mag(f.P(), c) * scale <= v <= Mag(f.P(), d) * scale && d < f.Inf()
    ensures c <= RoundCode(f, scale, mode, neg, v) <= d
  {
    RoundBetween(f.P(), scale, mode, neg, v, c, d);
  }

  /** Rounding v when the numbers around it are known. */
  lemma RoundCodeFrom(f: Format, mode: Mode, v: nat, lo: nat, a: nat, b: nat)
    requires a == Mag(f.P(), lo) && b == Mag(f.P(), lo + 1) && a <= v < b && lo + 1 < f.Inf()
    ensures RoundCode(f, 1, mode, false, v) == if a != v && RoundsAway(mode, false, v, a, b, lo) then lo + 1 else lo
  {
    DownCodeUnique(f.P(), v, lo);
    hide Mag, DownCode;
    assert v / 1 == v && a * 1 == a && b * 1 == b;
  }

  // ----- Addition

  /** b is a finite number of value v. */
  predicate Holds(f: Format, b: nat, v: int) {
    IsFinite(f, b) && IsPattern(f, b) && Value(f, b) == v
  }

  lemma PackParts(f: Format, neg: bool, c: nat)
    requires c <= f.Inf()
    ensures Negative(f, Pack(f, neg, c)) == neg && Code(f, Pack(f, neg, c)) == c
    ensures IsPattern(f, Pack(f, neg, c))
  {
  }

  /** The sum of two positive numbers, when the numbers around the exact sum are known. */
  lemma AddFrom(f: Format, mode: Mode, x: nat, y: nat, v: nat, lo: nat, a: nat, b: nat)
    requires IsFinite(f, x) && IsFinite(f, y) && v == Value(f, x) + Value(f, y) && v > 0
    requires a == Mag(f.P(), lo) && b == Mag(f.P(), lo + 1) && a <= v < b && lo + 1 < f.Inf()
    ensures Holds(f, Add(f, mode, x, y), if a != v && RoundsAway(mode, false, v, a, b, lo) then b else a)
  {
    hide Mag, RoundCode;
    RoundCodeFrom(f, mode, v, lo, a, b);
    PackParts(f, false, RoundCode(f, 1, mode, false, v));
  }

  /** A sum that is a number of the format is computed exactly, in every mode. */
  lemma AddExact(f: Format, mode: Mode, a: nat, b: nat, c: nat)
    requires IsFinite(f, a) && IsFinite(f, b) && c < f.Inf()
    requires Distance(0, Value(f, a) + Value(f, b)) == Mag(f.P(), c)
    ensures Holds(f, Add(f, mode, a, b), Value(f, a) + Value(f, b))
  {
    hide Mag, RoundCode;
    var v := Value(f, a) + Value(f, b);
    RoundCodeBetween(f, 1, mode, v < 0, Mag(f.P(), c), c, c);
    PackParts(f, v < 0, c);
    MagAtLeast(f.P(), c);
    PackParts(f, true, 0);
    PackParts(f, false, 0);
  }

  /** Sums that are not roundings (sections 6.1 to 6.3): a NaN stays a NaN, an infinity swallows numbers and agrees or
    * clashes with another, and an exact zero is +0, or -0 when rounding downward, unless both operands have its sign.
    */
  lemma AddSpecialCases(f: Format, mode: Mode, a: nat, b: nat)
    requires f.Valid() && IsPattern(f, a) && IsPattern(f, b)
    ensures IsNaN(f, a) || IsNaN(f, b) ==> IsNaN(f, Add(f, mode, a, b))
    ensures Code(f, a) == f.Inf() ==>
              && (IsFinite(f, b) || b == a ==> Add(f, mode, a, b) == a && Add(f, mode, b, a) == a)
              && (b == Negate(f, a) ==> IsNaN(f, Add(f, mode, a, b)))
    ensures IsFinite(f, a) ==>
              && Add(f, mode, a, Negate(f, a)) == Pack(f, mode == Downward, 0)
              && (Code(f, a) == 0 ==> Add(f, mode, a, a) == a)
  {
    assert f.P() == 2 * Pow2(f.frac - 1);
    if !IsNaN(f, a) { PackParts(f, !Negative(f, a), Code(f, a)); }
    assert Mag(f.P(), 0) == 0;
    hide Mag, RoundCode;
  }

  /** Comparisons go by value, and no number, NaN included, compares with a NaN. */
  lemma Comparisons(f: Format, a: nat, b: nat)
    ensures IsNaN(f, a) || IsNaN(f, b) ==> !Less(f, a, b) && !LessEq(f, a, b)
    ensures !IsNaN(f, a) && !IsNaN(f, b) ==> (Less(f, a, b) <==> !LessEq(f, b, a))
    ensures !IsNaN(f, a) && !IsNaN(f, b) ==> (Less(f, a, b) <==> Value(f, a) < Value(f, b))
  {
  }

  lemma NegateValue(f: Format, b: nat)
    requires IsFinite(f, b)
    ensures Holds(f, Negate(f, b), -Value(f, b)) && IsPattern(f, b)
  {
    PackParts(f, !Negative(f, b), Code(f, b));
  }

  /** Patterns of finite numbers are determined by sign and value. */
  lemma PatternUnique(f: Format, a: nat, b: nat)
    requires IsFinite(f, a) && IsFinite(f, b)
    requires Negative(f, a) == Negative(f, b) && Value(f, a) == Value(f, b)
    ensures a == b
  {
    MagOrder(f.P(), Code(f, a), Code(f, b));
  }
}
