/** luai_nummod of luaconf.h on the floating-point numbers it is applied to. */
module LuaFloat {
  import opened Bits
  import opened Float
  import opened Round
  import LuaNumber

  // ----- Exact floor division of values

  function FloorQuotient(x: int, y: int): int
    requires y != 0
  {
    if y > 0 then x / y else -x / -y
  }

  function FloorModulus(x: int, y: int): int
    requires y != 0
  {
    if y > 0 then x % y else -(-x % -y)
  }

  /** Between 0 and y, 0 included and y excluded. */
  predicate InRange(m: int, y: int) {
    if y > 0 then 0 <= m < y else y < m <= 0
  }

  /** Quotient and modulus are determined by making up x with a modulus in the divisor's range. */
  lemma FloorDetermined(x: int, y: int, q: int, m: int)
    requires y != 0 && InRange(m, y)
    ensures x == q * y + m <==> q == FloorQuotient(x, y) && m == FloorModulus(x, y)
  {
    if y > 0 {
      assert x == x / y * y + x % y;
      if x == q * y + m { DivModUnique(x, y, q, m); }
    } else {
      assert -x == -x / -y * -y + -x % -y;
      ProductSigns(-x / -y, y);
      ProductSigns(q, y);
      if x == q * y + m { DivModUnique(-x, -y, q, -m); }
    }
  }

  /** The same quotient and modulus as over the reals. */
  lemma FloorAgrees(x: int, y: int)
    requires y != 0
    ensures y as real != 0.0
    ensures FloorQuotient(x, y) == LuaNumber.FloorDiv(x as real, y as real)
    ensures FloorModulus(x, y) as real == x as real - LuaNumber.FloorDiv(x as real, y as real) as real * y as real
  {
    var q, m := FloorQuotient(x, y), FloorModulus(x, y);
    FloorDetermined(x, y, q, m);
    LuaNumber.DivModDetermined(x as real, y as real, q, m as real);
  }

  // ----- The C operations

  function SomeNaN(f: Format): nat { Pack(f, false, f.Inf() + 1) }

  predicate IsZero(f: Format, b: nat) { Code(f, b) == 0 }

  /** The magnitude of a pattern. */
  function Size(f: Format, b: nat): nat { Mag(f.P(), Code(f, b)) }

  lemma SizeZero(f: Format, b: nat)
    ensures Size(f, b) == 0 <==> IsZero(f, b)
  {
    MagAtLeast(f.P(), Code(f, b));
  }

  function Times(x: nat, y: nat): nat { x * y }

  /** |a| modulo |b| */
  function Rest(f: Format, a: nat, b: nat): (r: nat)
    requires !IsZero(f, b)
    ensures r < Size(f, b)
  {
    SizeZero(f, b);
    Size(f, a) % Size(f, b)
  }

  /** fmod(a, b) (section F.9.7.1 of ISO/IEC 9899:1999). */
  function FMod(f: Format, a: nat, b: nat): nat {
    if IsNaN(f, a) || IsNaN(f, b) || !IsFinite(f, a) || IsZero(f, b) then SomeNaN(f)
    else if !IsFinite(f, b) then a
    else Pack(f, Negative(f, a), DownCode(f.P(), Rest(f, a, b)))
  }

  /** |a| * |b|, in units Unit times finer than the smallest subnormal. */
  function Product(f: Format, a: nat, b: nat): nat { Times(Size(f, a), Size(f, b)) }

  /** a * b */
  function Multiply(f: Format, mode: Mode, a: nat, b: nat): nat
    requires Unit(f) > 0
  {
    var neg := Negative(f, a) != Negative(f, b);
    if IsNaN(f, a) || IsNaN(f, b) then SomeNaN(f)
    else if !IsFinite(f, a) || !IsFinite(f, b) then
      if IsZero(f, a) || IsZero(f, b) then SomeNaN(f) else Pack(f, neg, f.Inf())
    else Pack(f, neg, RoundCode(f, Unit(f), mode, neg, Product(f, a, b)))
  }

  /** Finite numerator, finite divisor other than zero. */
  predicate Ordinary(f: Format, a: nat, b: nat) {
    && Roomy(f) && IsPattern(f, a) && IsPattern(f, b)
    && IsFinite(f, a) && IsFinite(f, b) && !IsZero(f, b)
  }

  // ----- The remainder is exact

  lemma ScaledRemainder(p: nat, n: nat, e: nat, m: nat, d: nat) returns (c: nat)
    requires p > 0 && d <= e && 0 < m < 2 * p
    ensures m * Pow2(d) > 0 && Mag(p, c) == n * Pow2(e) % (m * Pow2(d))
  {
    hide Mag, Pow2;
    var x := n * Pow2(e - d);
    Pow2Add(e - d, d);
    assert n * Pow2(e) == x * Pow2(d) by { Associate(n, Pow2(e - d), Pow2(d)); }
    ScaledMod(x, m, Pow2(d));
    c := ScaledCode(p, x % m, d);
  }

  lemma ExponentGrows(p: nat, c: nat, d: nat)
    requires p > 0 && c <= d
    ensures c / p <= d / p
  {
    FloorBounds(c, p, c / p);
    QuotientBelow(d, p, c / p);
  }

  lemma RestCode(p: nat, c: nat, d: nat) returns (r: nat)
    requires p > 0 && Mag(p, d) > 0
    ensures Mag(p, r) == Mag(p, c) % Mag(p, d) && r < d
  {
    hide Mag, Pow2;
    MagOrder(p, c, d);
    if c < d {
      SmallMod(Mag(p, c), Mag(p, d));
      r := c;
    } else {
      var n, e := Significand(p, c);
      var m, k := Significand(p, d);
      ExponentGrows(p, d, c);
      r := ScaledRemainder(p, n, e, m, k);
    }
    MagOrder(p, r, d);
  }

  /** fmod makes no rounding error: the remainder of two numbers of a format is one. */
  lemma FModExact(f: Format, a: nat, b: nat)
    requires Ordinary(f, a, b)
    ensures var r := FMod(f, a, b);
            && IsFinite(f, r) && IsPattern(f, r) && Negative(f, r) == Negative(f, a) && Size(f, r) == Rest(f, a, b)
  {
    SizeZero(f, b);
    hide Mag, DownCode;
    var c := RestCode(f.P(), Code(f, a), Code(f, b));
    ExactCode(f.P(), Rest(f, a, b), c);
    PackParts(f, Negative(f, a), c);
  }

  // ----- When the correction runs

  /** The remainder is not zero and does not have the divisor's sign. */
  predicate NeedsCorrection(f: Format, a: nat, b: nat)
    requires !IsZero(f, b)
  {
    Negative(f, a) != Negative(f, b) && Rest(f, a, b) != 0
  }

  /** A negative product of exact magnitude v / Unit rounds to zero. */
  predicate Vanishes(f: Format, mode: Mode, v: nat) {
    match mode
    case NearestEven => 2 * v <= Unit(f)
    case TowardZero => v < Unit(f)
    case Upward => v < Unit(f)
    case Downward => false
  }

  /** The correction is needed, but the product m * b underflows to zero and the test m * b < 0 fails. */
  predicate Skipped(f: Format, mode: Mode, a: nat, b: nat)
    requires !IsZero(f, b)
  {
    NeedsCorrection(f, a, b) && Vanishes(f, mode, Times(Rest(f, a, b), Size(f, b)))
  }

  /** Rounding of a magnitude that lies from code c up to the next. */
  lemma RoundFrom(p: nat, scale: nat, mode: Mode, neg: bool, v: nat, c: nat)
    requires p > 0 && scale > 0 && Mag(p, c) * scale <= v < Mag(p, c + 1) * scale
    ensures RoundUnbounded(p, scale, mode, neg, v)
         == if Mag(p, c) * scale != v && RoundsAway(mode, neg, v, Mag(p, c) * scale, Mag(p, c + 1) * scale, c)
            then c + 1 else c
  {
    hide Mag, DownCode, RoundsAway;
    var q := v / scale;
    FloorBounds(v, scale, q);
    QuotientBelow(v, scale, Mag(p, c + 1));
    QuotientBelow(v, scale, Mag(p, c));
    DownCodeUnique(p, q, c);
  }

  lemma RoundsToZero(f: Format, mode: Mode, v: nat)
    requires Roomy(f)
    ensures Unit(f) > 0
    ensures RoundCode(f, Unit(f), mode, true, v) == 0 <==> v == 0 || Vanishes(f, mode, v)
  {
    UnitIsPower(f);
    BiasRoom(f);
    MulOrder(1, 2 * f.Bias() + 1, f.P());
    var u := Unit(f);
    assert Mag(f.P(), 0) == 0 && Mag(f.P(), 1) == 1;
    hide Mag, Unit, DownCode, RoundUnbounded;
    if v < u {
      RoundFrom(f.P(), u, mode, true, v, 0);
    } else {
      DownCodeScaled(f.P(), u, v);
      AtLeastOne(f.P(), u, mode, v);
    }
  }

  lemma AtLeastOne(p: nat, u: nat, mode: Mode, v: nat)
    requires p > 0 && 0 < u <= v
    ensures RoundUnbounded(p, u, mode, true, v) >= 1
  {
    assert Mag(p, 1) == 1;
    hide Mag, DownCode, RoundsAway;
    var lo := DownCode(p, v / u);
    DownCodeScaled(p, u, v);
    assert Mag(p, 1) * u == u;
    assert lo != 0;
  }

  /** The test m * b < 0 in floating point. */
  lemma ProductTest(f: Format, mode: Mode, m: nat, b: nat)
    requires Roomy(f) && IsFinite(f, m) && IsFinite(f, b)
    ensures Unit(f) > 0
    ensures Less(f, Multiply(f, mode, m, b), 0) <==>
              && Negative(f, m) != Negative(f, b) && Product(f, m, b) != 0 && !Vanishes(f, mode, Product(f, m, b))
  {
    var neg := Negative(f, m) != Negative(f, b);
    var v := Product(f, m, b);
    RoundsToZero(f, mode, v);
    ProductParts(f, mode, m, b, neg, v);
    RoundCodeRange(f, Unit(f), mode, neg, v);
    BelowZero(f, neg, RoundCode(f, Unit(f), mode, neg, v));
    hide *;
  }

  lemma ProductParts(f: Format, mode: Mode, m: nat, b: nat, neg: bool, v: nat)
    requires Unit(f) > 0 && IsFinite(f, m) && IsFinite(f, b)
    requires neg == (Negative(f, m) != Negative(f, b)) && v == Product(f, m, b)
    ensures Multiply(f, mode, m, b) == Pack(f, neg, RoundCode(f, Unit(f), mode, neg, v))
  {
    hide Product, RoundCode;
  }

  lemma BelowZero(f: Format, neg: bool, c: nat)
    requires Roomy(f) && c <= f.Inf()
    ensures Less(f, Pack(f, neg, c), 0) <==> neg && c != 0
  {
    PackParts(f, neg, c);
    PackParts(f, false, 0);
    MagAtLeast(f.P(), c);
    MagAtLeast(f.P(), 0);
    hide Mag;
  }

  lemma RoundCodeRange(f: Format, scale: nat, mode: Mode, neg: bool, v: nat)
    requires scale > 0
    ensures RoundCode(f, scale, mode, neg, v) <= f.Inf()
  {
  }

  // ----- luai_nummod

  /** What luai_nummod leaves in m. */
  function FloatMod(f: Format, mode: Mode, a: nat, b: nat): nat
    requires Unit(f) > 0
  {
    var m := FMod(f, a, b);
    if Less(f, Multiply(f, mode, m, b), 0) then Add(f, mode, m, b) else m
  }

  function Signed(neg: bool, x: nat): int { if neg then 0 - x else x }

  lemma SignedParts(x: nat, y: nat, nx: bool, ny: bool, q: nat, r: nat)
    requires y > 0 && x == q * y + r && r < y
    ensures FloorQuotient(Signed(nx, x), Signed(ny, y)) == if nx == ny then q else if r == 0 then 0 - q else 0 - q - 1
    ensures FloorModulus(Signed(nx, x), Signed(ny, y))
         == if nx == ny || r == 0 then Signed(nx, r) else Signed(ny, y - r)
  {
    hide FloorQuotient, FloorModulus;
    ProductSigns(q, y);
    ProductSigns(q + 1, y);
    Distribute(q, y);
    var a, b := Signed(nx, x), Signed(ny, y);
    if nx == ny {
      FloorDetermined(a, b, q, Signed(nx, r));
    } else if r == 0 {
      FloorDetermined(a, b, 0 - q, Signed(nx, r));
    } else {
      FloorDetermined(a, b, 0 - q - 1, Signed(ny, y - r));
    }
  }

  function DividedBy(x: nat, y: nat): nat
    requires y > 0
  {
    x / y
  }

  /** How often |b| goes into |a|. */
  function Wholes(f: Format, a: nat, b: nat): nat
    requires !IsZero(f, b)
  {
    SizeZero(f, b);
    DividedBy(Size(f, a), Size(f, b))
  }

  lemma ValueIsSigned(f: Format, b: nat)
    ensures Value(f, b) == Signed(Negative(f, b), Size(f, b))
  {
  }

  /** Exact floor quotient and modulus, from the magnitudes. */
  lemma ExactParts(f: Format, a: nat, b: nat)
    requires !IsZero(f, b)
    ensures Value(f, b) != 0
    ensures FloorModulus(Value(f, a), Value(f, b)) ==
            if NeedsCorrection(f, a, b) then Signed(Negative(f, b), Size(f, b) - Rest(f, a, b))
            else Signed(Negative(f, a), Rest(f, a, b))
    ensures FloorQuotient(Value(f, a), Value(f, b)) ==
            if Negative(f, a) == Negative(f, b) then Wholes(f, a, b)
            else if Rest(f, a, b) == 0 then 0 - Wholes(f, a, b) else 0 - Wholes(f, a, b) - 1
  {
    hide Size, FloorQuotient, FloorModulus;
    ValueIsSigned(f, a);
    ValueIsSigned(f, b);
    SizeZero(f, b);
    DivModParts(Size(f, a), Size(f, b));
    SignedParts(Size(f, a), Size(f, b), Negative(f, a), Negative(f, b), Wholes(f, a, b), Rest(f, a, b));
  }

  /** The sum m + b is the exact floor modulus, rounded. */
  lemma CorrectedSum(f: Format, mode: Mode, a: nat, b: nat)
    requires Ordinary(f, a, b) && NeedsCorrection(f, a, b)
    ensures Add(f, mode, FMod(f, a, b), b)
         == Pack(f, Negative(f, b), RoundCode(f, 1, mode, Negative(f, b), Size(f, b) - Rest(f, a, b)))
  {
    FModExact(f, a, b);
    ValueIsSigned(f, FMod(f, a, b));
    ValueIsSigned(f, b);
    hide Size, RoundCode, FMod, Rest, Value;
  }

  /** The corrected remainder is so small that the sum m + b rounds to b. */
  predicate Swallowed(f: Format, mode: Mode, a: nat, b: nat)
    requires !IsZero(f, b)
  {
    NeedsCorrection(f, a, b) && GapSwallows(mode, Negative(f, b), Code(f, b), Rest(f, a, b), GapBelow(f, b))
  }

  /** The distance from |b| to the number before it. */
  function GapBelow(f: Format, b: nat): nat
    requires !IsZero(f, b)
  {
    MagOrder(f.P(), Code(f, b) - 1, Code(f, b));
    Size(f, b) - Mag(f.P(), Code(f, b) - 1)
  }

  predicate GapSwallows(mode: Mode, neg: bool, code: nat, r: nat, gap: nat) {
    match mode
    case NearestEven => 2 * r < gap || (2 * r == gap && code % 2 == 0)
    case TowardZero => false
    case Upward => !neg && r < gap
    case Downward => neg && r < gap
  }

  /** Rounding a magnitude r below that of code c, all counted in scale units. */
  lemma RoundBelowScaled(p: nat, scale: nat, mode: Mode, neg: bool, c: nat, r: nat, top: nat, gap: nat)
    requires p > 0 && scale > 0 && c > 0 && 0 < r <= top
    requires top == Mag(p, c) * scale && gap == (Mag(p, c) - Mag(p, c - 1)) * scale
    ensures RoundUnbounded(p, scale, mode, neg, top - r) <= c
    ensures RoundUnbounded(p, scale, mode, neg, top - r) == c <==> GapSwallows(mode, neg, c, r, gap)
  {
    hide Mag, RoundUnbounded, RoundsAway, GapSwallows;
    MagScaledOrder(p, scale, c - 1, c);
    var a := Mag(p, c - 1) * scale;
    assert a == top - gap by { DistributeMinus(Mag(p, c), Mag(p, c - 1), scale); }
    GapChoice(mode, neg, c, r, a, top, top - r);
    if top - r < a {
      assert Mag(p, 0) == 0 by { MagAtLeast(p, 0); }
      RoundBetween(p, scale, mode, neg, top - r, 0, c - 1);
    } else {
      RoundFrom(p, scale, mode, neg, top - r, c - 1);
    }
  }

  lemma RoundBelow(f: Format, mode: Mode, neg: bool, c: nat, r: nat)
    requires 0 < c < f.Inf() && 0 < r < Mag(f.P(), c)
    ensures Mag(f.P(), c - 1) < Mag(f.P(), c)
    ensures var s := RoundCode(f, 1, mode, neg, Mag(f.P(), c) - r);
            s <= c && (s == c <==> GapSwallows(mode, neg, c, r, Mag(f.P(), c) - Mag(f.P(), c - 1)))
  {
    hide Mag, RoundUnbounded, GapSwallows;
    MagOrder(f.P(), c - 1, c);
    var gap := Mag(f.P(), c) - Mag(f.P(), c - 1);
    TimesOne(Mag(f.P(), c));
    TimesOne(gap);
    RoundBelowScaled(f.P(), 1, mode, neg, c, r, Mag(f.P(), c), gap);
  }

  lemma TimesOne(x: int)
    ensures x * 1 == x
  {
  }

  lemma GapChoice(mode: Mode, neg: bool, c: nat, r: nat, a: nat, b: nat, v: nat)
    requires c > 0 && 0 < r <= b && v == b - r && a < b
    ensures v < a ==> !GapSwallows(mode, neg, c, r, b - a)
    ensures a <= v ==> (GapSwallows(mode, neg, c, r, b - a) <==> a != v && RoundsAway(mode, neg, v, a, b, c - 1))
  {
  }

  /** b is the integer v correctly rounded, with v's sign unless v is zero. */
  predicate IsRoundingOf(f: Format, mode: Mode, v: int, b: nat) {
    && IsFinite(f, b) && IsPattern(f, b)
    && Code(f, b) == RoundCode(f, 1, mode, v < 0, Distance(0, v))
    && (v != 0 ==> Negative(f, b) == (v < 0))
  }

  lemma ExactIsRounding(f: Format, mode: Mode, b: nat)
    requires IsFinite(f, b) && IsPattern(f, b)
    ensures IsRoundingOf(f, mode, Value(f, b), b)
  {
    var v := Size(f, b);
    ValueIsSigned(f, b);
    SizeZero(f, b);
    assert Mag(f.P(), Code(f, b)) * 1 == v;
    RoundCodeBetween(f, 1, mode, Value(f, b) < 0, v, Code(f, b), Code(f, b));
    if v == 0 { RoundCodeBetween(f, 1, mode, Value(f, b) < 0, v, 0, 0); }
  }

  /** Whether the correction runs: exactly when it is needed and the product does not vanish. */
  lemma CorrectionRuns(f: Format, mode: Mode, a: nat, b: nat)
    requires Ordinary(f, a, b)
    ensures Unit(f) > 0
    ensures Less(f, Multiply(f, mode, FMod(f, a, b), b), 0) <==> NeedsCorrection(f, a, b) && !Skipped(f, mode, a, b)
  {
    FModExact(f, a, b);
    ProductTest(f, mode, FMod(f, a, b), b);
    SizeZero(f, b);
    hide Size, FMod, Multiply, Less, Vanishes, Unit;
    TimesZeroOnly(Rest(f, a, b), Size(f, b));
  }

  lemma TimesZeroOnly(x: nat, y: nat)
    requires y > 0
    ensures Times(x, y) == 0 <==> x == 0
  {
    if x > 0 { MulOrder(1, x, y); }
  }

  /** Between 0 and y, both included. */
  predicate UpTo(m: int, y: int) {
    if y > 0 then 0 <= m <= y else y <= m <= 0
  }

  /** With the correction. */
  lemma WithCorrection(f: Format, mode: Mode, a: nat, b: nat)
    requires Ordinary(f, a, b) && NeedsCorrection(f, a, b)
    ensures Value(f, b) != 0
    ensures var m := Add(f, mode, FMod(f, a, b), b);
            && IsRoundingOf(f, mode, FloorModulus(Value(f, a), Value(f, b)), m)
            && (InRange(Value(f, m), Value(f, b)) <==> !Swallowed(f, mode, a, b))
            && UpTo(Value(f, m), Value(f, b))
  {
    hide Mag, UpTo, FMod, RoundCode, Rest, Value, GapSwallows, FloorModulus, Add, IsRoundingOf, InRange, Pow2, Roomy;
    ExactParts(f, a, b);
    ValueIsSigned(f, b);
    CorrectedSum(f, mode, a, b);
    RoundBelow(f, mode, Negative(f, b), Code(f, b), Rest(f, a, b));
    PackedSum(f, mode, Negative(f, b), Code(f, b), Rest(f, a, b));
  }

  lemma PackedSum(f: Format, mode: Mode, neg: bool, code: nat, r: nat)
    requires 0 < code < f.Inf() && 0 < r < Mag(f.P(), code)
    ensures var c := RoundCode(f, 1, mode, neg, Mag(f.P(), code) - r);
            && IsRoundingOf(f, mode, Signed(neg, Mag(f.P(), code) - r), Pack(f, neg, c))
            && (InRange(Value(f, Pack(f, neg, c)), Signed(neg, Mag(f.P(), code))) <==> c != code)
            && UpTo(Value(f, Pack(f, neg, c)), Signed(neg, Mag(f.P(), code)))
  {
    hide Mag, RoundCode, GapSwallows, Pow2;
    var c := RoundCode(f, 1, mode, neg, Mag(f.P(), code) - r);
    RoundBelow(f, mode, neg, code, r);
    MagOrder(f.P(), c, code);
    PackParts(f, neg, c);
  }

  /** Without it. */
  lemma WithoutCorrection(f: Format, mode: Mode, a: nat, b: nat)
    requires Ordinary(f, a, b)
    ensures Value(f, b) != 0
    ensures var m, exact := FMod(f, a, b), FloorModulus(Value(f, a), Value(f, b));
            if NeedsCorrection(f, a, b) then Holds(f, m, exact - Value(f, b)) && !InRange(Value(f, m), Value(f, b))
            else IsRoundingOf(f, mode, exact, m) && Value(f, m) == exact && InRange(exact, Value(f, b))
  {
    FModExact(f, a, b);
    ExactParts(f, a, b);
    ValueIsSigned(f, b);
    ValueIsSigned(f, FMod(f, a, b));
    ExactIsRounding(f, mode, FMod(f, a, b));
    hide Size, FMod, Rest, Value, FloorModulus, IsRoundingOf;
  }

  /** The result is the exact floor modulus, rounded once, except when the correction is skipped: then it is
    * the modulus less the divisor.
    */
  lemma ModIsRoundedFloor(f: Format, mode: Mode, a: nat, b: nat)
    requires Ordinary(f, a, b)
    ensures Unit(f) > 0 && Value(f, b) != 0
    ensures var m, exact := FloatMod(f, mode, a, b), FloorModulus(Value(f, a), Value(f, b));
            if Skipped(f, mode, a, b) then Holds(f, m, exact - Value(f, b)) else IsRoundingOf(f, mode, exact, m)
  {
    CorrectionRuns(f, mode, a, b);
    WithoutCorrection(f, mode, a, b);
    if NeedsCorrection(f, a, b) { WithCorrection(f, mode, a, b); }
    hide Size, FMod, Multiply, Less, Vanishes, Unit, Rest, Value, InRange, IsRoundingOf, Add;
  }

  /** The result lies in the divisor's range exactly when the correction is neither skipped nor swallowed. */
  lemma ModInRange(f: Format, mode: Mode, a: nat, b: nat)
    requires Ordinary(f, a, b)
    ensures Unit(f) > 0
    ensures InRange(Value(f, FloatMod(f, mode, a, b)), Value(f, b)) <==>
              !Skipped(f, mode, a, b) && !Swallowed(f, mode, a, b)
  {
    CorrectionRuns(f, mode, a, b);
    WithoutCorrection(f, mode, a, b);
    if NeedsCorrection(f, a, b) { WithCorrection(f, mode, a, b); }
    hide Size, FMod, Multiply, Less, Vanishes, Unit, Rest, Value, GapSwallows, InRange, IsRoundingOf, Add;
  }

  /** A modulus of zero has the sign of a. */
  lemma ModOfMultiple(f: Format, mode: Mode, a: nat, b: nat)
    requires Ordinary(f, a, b)
    ensures Unit(f) > 0 && Value(f, b) != 0
    ensures FloorModulus(Value(f, a), Value(f, b)) == 0 ==> FloatMod(f, mode, a, b) == Pack(f, Negative(f, a), 0)
  {
    hide FMod, Multiply, Less, Add, Unit, Rest, Pow2, Mag, Value, FloorModulus, Vanishes;
    CorrectionRuns(f, mode, a, b);
    ExactParts(f, a, b);
    FModExact(f, a, b);
    SizeZero(f, FMod(f, a, b));
  }

  /** With an infinite divisor the result is a, or the divisor if a is not zero and has the other sign. */
  lemma ModInfinite(f: Format, mode: Mode, a: nat, b: nat)
    requires Roomy(f) && IsPattern(f, a) && IsPattern(f, b) && IsFinite(f, a) && Code(f, b) == f.Inf()
    ensures Unit(f) > 0
    ensures FloatMod(f, mode, a, b) == if IsZero(f, a) || Negative(f, a) == Negative(f, b) then a else b
  {
    UnitIsPower(f);
    BiasRoom(f);
    MulOrder(1, 2 * f.Bias() + 1, f.P());
    BelowZero(f, Negative(f, a) != Negative(f, b), f.Inf());
    hide Mag, Unit;
    assert Less(f, SomeNaN(f), 0) == false by { NaNParts(f); }
    hide Less, SomeNaN;
  }

  lemma NaNParts(f: Format)
    requires Roomy(f)
    ensures IsNaN(f, SomeNaN(f))
  {
    assert f.P() == 2 * Pow2(f.frac - 1);
  }

  /** In every other case the result is a NaN. */
  lemma ModNaN(f: Format, mode: Mode, a: nat, b: nat)
    requires Roomy(f) && (IsNaN(f, a) || IsNaN(f, b) || !IsFinite(f, a) || IsZero(f, b))
    ensures Unit(f) > 0 && IsNaN(f, FloatMod(f, mode, a, b))
  {
    UnitIsPower(f);
    NaNParts(f);
    hide SomeNaN, Unit;
  }

  /** luai_nummod(L, a, b, m) */
  method NumMod(f: Format, mode: Mode, a: nat, b: nat) returns (m: nat)
    requires Roomy(f) && IsPattern(f, a) && IsPattern(f, b)
    ensures Ordinary(f, a, b) ==>
              && Unit(f) > 0 && Value(f, b) != 0
              && var exact := FloorModulus(Value(f, a), Value(f, b));
              && (if Skipped(f, mode, a, b) then Holds(f, m, exact - Value(f, b)) else IsRoundingOf(f, mode, exact, m))
              && (InRange(Value(f, m), Value(f, b)) <==> !Skipped(f, mode, a, b) && !Swallowed(f, mode, a, b))
              && (exact == 0 ==> m == Pack(f, Negative(f, a), 0))
    ensures IsFinite(f, a) && Code(f, b) == f.Inf() ==>
              m == if IsZero(f, a) || Negative(f, a) == Negative(f, b) then a else b
    ensures IsNaN(f, a) || IsNaN(f, b) || !IsFinite(f, a) || IsZero(f, b) ==> IsNaN(f, m)
  {
    UnitIsPower(f);
    hide Unit, Skipped, Swallowed, IsRoundingOf, InRange, FloorModulus, Holds, Value;
    if Ordinary(f, a, b) {
      ModIsRoundedFloor(f, mode, a, b);
      ModInRange(f, mode, a, b);
      ModOfMultiple(f, mode, a, b);
    } else if IsFinite(f, a) && Code(f, b) == f.Inf() {
      ModInfinite(f, mode, a, b);
    }
    if IsNaN(f, a) || IsNaN(f, b) || !IsFinite(f, a) || IsZero(f, b) {
      ModNaN(f, mode, a, b);
    }
    hide FMod, Multiply, Less, Add;
    m := FMod(f, a, b);
    if Less(f, Multiply(f, mode, m, b), 0) {
      m := Add(f, mode, m, b);
    }
  }

  lemma SkippedGivesRemainder(f: Format, mode: Mode, a: nat, b: nat)
    requires Ordinary(f, a, b) && Skipped(f, mode, a, b)
    ensures Unit(f) > 0 && FloatMod(f, mode, a, b) == FMod(f, a, b)
  {
    hide FMod, Multiply, Less, Unit, Add, Vanishes, Pow2;
    CorrectionRuns(f, mode, a, b);
  }

  lemma SwallowedGivesDivisor(f: Format, mode: Mode, a: nat, b: nat)
    requires Ordinary(f, a, b) && Swallowed(f, mode, a, b) && !Skipped(f, mode, a, b)
    ensures Unit(f) > 0 && FloatMod(f, mode, a, b) == b
  {
    hide FMod, Multiply, Less, Unit, Add, Vanishes, Pow2, Mag, RoundCode, GapSwallows, Rest, Skipped;
    CorrectionRuns(f, mode, a, b);
    CorrectedSum(f, mode, a, b);
    RoundBelow(f, mode, Negative(f, b), Code(f, b), Rest(f, a, b));
  }

  /** Numbers below the binade of exponent field t. */
  lemma SizeBelow(p: nat, c: nat, k: nat, t: nat)
    requires p == Pow2(k) && c < (t + 1) * p && t > 0
    ensures Mag(p, c) < Pow2(k + t)
  {
    hide Mag, Pow2;
    var n, e := Significand(p, c);
    QuotientBelow(c, p, t + 1);
    PowStep(k);
    Pow2Mono(e, t - 1);
    ProductBelow(n, Pow2(e), 2 * p, Pow2(t - 1));
    Pow2Add(k + 1, t - 1);
  }

  // -1e-200, 2e-200 and -1e-20
  const MINUS1E200: nat := 0x96687E92154EF7AC
  const TWO1E200: nat := 0x16787E92154EF7AC
  const MINUS1E20: nat := 0xBBC79CA10C924223

  lemma PartsOfTiny()
    ensures Code(BINARY64, MINUS1E200) == 0x16687E92154EF7AC && Negative(BINARY64, MINUS1E200)
    ensures Code(BINARY64, TWO1E200) == TWO1E200 && !Negative(BINARY64, TWO1E200)
    ensures Code(BINARY64, MINUS1E20) == 0x3BC79CA10C924223 && Negative(BINARY64, MINUS1E20)
    ensures Code(BINARY64, ONE) == ONE && !Negative(BINARY64, ONE)
    ensures BINARY64.Inf() == 0x7FF0000000000000
  {
    DoubleConstants();
  }

  /** A numerator smaller than the divisor is the remainder. */
  lemma SmallNumerator(f: Format, a: nat, b: nat)
    requires Ordinary(f, a, b) && Size(f, a) < Size(f, b)
    ensures Rest(f, a, b) == Size(f, a) && FMod(f, a, b) == a
  {
    SmallMod(Size(f, a), Size(f, b));
    ExactCode(f.P(), Size(f, a), Code(f, a));
    hide Mag, DownCode, Pow2;
  }

  lemma SmallProductVanishes(f: Format, x: nat, y: nat, k: nat)
    requires Roomy(f) && x < Pow2(k) && y < Pow2(k) && 2 * k + 1 <= f.frac + f.Bias() - 1
    ensures Vanishes(f, NearestEven, Times(x, y))
  {
    hide Unit, Pow2;
    UnitIsPower(f);
    ProductBelow(x, y, Pow2(k), Pow2(k));
    Pow2Add(k, k);
    PowStep(2 * k);
    Pow2Mono(2 * k + 1, f.frac + f.Bias() - 1);
  }

  lemma SizesOfTiny()
    ensures var f := BINARY64;
            && 0 < Size(f, MINUS1E200) < Size(f, TWO1E200) < Pow2(411)
            && 0 < Size(f, MINUS1E20) < Pow2(1008) && Size(f, MINUS1E20) < Size(f, ONE)
  {
    hide Mag, Pow2;
    var f := BINARY64;
    DoubleConstants();
    PartsOfTiny();
    assert f.frac == 52;
    SizeBelow(f.P(), Code(f, TWO1E200), 52, 0x167);
    SizeBelow(f.P(), Code(f, MINUS1E20), 52, 0x3BC);
    MagOrder(f.P(), Code(f, MINUS1E200), Code(f, TWO1E200));
    MagOrder(f.P(), Code(f, MINUS1E20), Code(f, ONE));
    MagAtLeast(f.P(), Code(f, MINUS1E200));
    MagAtLeast(f.P(), Code(f, MINUS1E20));
  }

  /** luai_nummod(-1e-200, 2e-200) keeps the remainder -1e-200: the product underflows. */
  lemma SkippedExample()
    ensures Ordinary(BINARY64, MINUS1E200, TWO1E200) && Skipped(BINARY64, NearestEven, MINUS1E200, TWO1E200)
    ensures Unit(BINARY64) > 0 && FloatMod(BINARY64, NearestEven, MINUS1E200, TWO1E200) == MINUS1E200
  {
    hide Mag, Unit, Pow2, DownCode, FloatMod, FMod, Vanishes, Rest, Size;
    var f, a, b := BINARY64, MINUS1E200, TWO1E200;
    DoubleConstants();
    PartsOfTiny();
    SizesOfTiny();
    SmallNumerator(f, a, b);
    SmallProductVanishes(f, Size(f, a), Size(f, b), 411);
    SkippedGivesRemainder(f, NearestEven, a, b);
  }

  /** 1.0 and the number before it. */
  lemma GapBelowOne(f: Format)
    requires Roomy(f)
    ensures f.Bias() >= 2 && PowerPattern(f, 0) > 0
    ensures Mag(f.P(), PowerPattern(f, 0)) - Mag(f.P(), PowerPattern(f, 0) - 1) == Pow2(f.Bias() - 2)
  {
    BiasRoom(f);
    var p, k := f.P(), f.Bias() - 2;
    Distribute(k, p);
    Distribute(k + 1, p);
    assert PowerPattern(f, 0) == 2 * p + k * p;
    assert Mag(p, 2 * p) == 2 * p && Mag(p, 2 * p - 1) == 2 * p - 1;
    hide Mag, Pow2;
    MulOrder(0, k, p);
    MagShift(p, 2 * p, k);
    MagShift(p, 2 * p - 1, k);
    OneLess(2 * p, Pow2(k));
  }

  /** luai_nummod(-1e-20, 1.0) is 1.0: the sum rounds to the divisor. */
  lemma SwallowedExample()
    ensures Ordinary(BINARY64, MINUS1E20, ONE) && Swallowed(BINARY64, NearestEven, MINUS1E20, ONE)
    ensures Unit(BINARY64) > 0 && FloatMod(BINARY64, NearestEven, MINUS1E20, ONE) == ONE
  {
    hide Mag, Unit, Pow2, DownCode, FloatMod, FMod, Rest;
    var f, a, b := BINARY64, MINUS1E20, ONE;
    DoubleConstants();
    PartsOfTiny();
    SizesOfTiny();
    SmallNumerator(f, a, b);
    GapBelowOne(f);
    PowStep(1008);
    Pow2Mono(1009, f.Bias() - 2);
    OneProduct(f, Size(f, a), Size(f, b));
    SwallowedGivesDivisor(f, NearestEven, a, b);
  }

  /** A product with 1.0 is its other factor and does not vanish. */
  lemma OneProduct(f: Format, x: nat, one: nat)
    requires Roomy(f) && x > 0 && one == Mag(f.P(), PowerPattern(f, 0))
    ensures !Vanishes(f, NearestEven, Times(x, one))
  {
    UnitIsPower(f);
    MulOrder(1, x, Unit(f));
  }
}
