/** roundf() and lround(): the double algorithm between two conversions. */
module Convert {
  import opened Bits
  import opened Float
  import opened Round
  import opened Libm

  /** The smallest subnormal of the narrow format f counts Pow2(Gap) of those of the wide format g. */
  predicate Wider(f: Format, g: Format) {
    Roomy(f) && Roomy(g) && f.frac <= g.frac && f.Bias() <= g.Bias()
  }

  function Scale(f: Format, g: Format): (s: nat)
    requires Wider(f, g)
    ensures s > 0
  {
    Pow2(g.Bias() + g.frac - (f.Bias() + f.frac))
  }

  /** The conversion float -> double. A NaN becomes some NaN. */
  function Widen(f: Format, g: Format, b: nat): nat
    requires Wider(f, g)
  {
    if IsNaN(f, b) then Pack(g, Negative(f, b), g.Inf() + 1)
    else if !IsFinite(f, b) then Pack(g, Negative(f, b), g.Inf())
    else Pack(g, Negative(f, b), DownCode(g.P(), Mag(f.P(), Code(f, b)) * Scale(f, g)))
  }

  /** The conversion double -> float, rounding in the current mode. */
  function Narrow(f: Format, g: Format, mode: Mode, b: nat): nat
    requires Wider(f, g)
  {
    if IsNaN(g, b) then Pack(f, Negative(g, b), f.Inf() + 1)
    else if !IsFinite(g, b) then Pack(f, Negative(g, b), f.Inf())
    else Pack(f, Negative(g, b), RoundCode(f, Scale(f, g), mode, Negative(g, b), Mag(g.P(), Code(g, b))))
  }

  lemma UnitScale(f: Format, g: Format)
    requires Wider(f, g)
    ensures Unit(g) == Unit(f) * Scale(f, g) && Unit(f) > 0
  {
    UnitIsPower(f);
    UnitIsPower(g);
    Pow2Add(f.frac + f.Bias() - 1, g.Bias() + g.frac - (f.Bias() + f.frac));
  }

  /** Every narrow number is a wide number. */
  lemma WideCode(f: Format, g: Format, a: nat) returns (c: nat)
    requires Wider(f, g)
    ensures Mag(g.P(), c) == Mag(f.P(), a) * Scale(f, g)
  {
    hide Mag, Pow2;
    var n, e := Significand(f.P(), a);
    Pow2Mono(f.frac, g.frac);
    c := ScaledTwice(g.P(), n, e, g.Bias() + g.frac - (f.Bias() + f.frac));
  }

  lemma ScaledTwice(p: nat, n: nat, e: nat, k: nat) returns (c: nat)
    requires p > 0 && n <= 2 * p
    ensures Mag(p, c) == n * Pow2(e) * Pow2(k)
  {
    hide Mag, Pow2;
    Pow2Add(e, k);
    c := ScaledCode(p, n, e + k);
    Associate(n, Pow2(e), Pow2(k));
  }

  lemma InfMag(f: Format)
    requires Roomy(f)
    ensures Mag(f.P(), f.Inf()) == Pow2(f.frac + 2 * f.Bias())
  {
    var p := f.P();
    BiasRoom(f);
    Distribute(2 * f.Bias(), p);
    assert Mag(p, p) == p;
    hide Mag;
    MagShift(p, p, 2 * f.Bias());
    Pow2Add(f.frac, 2 * f.Bias());
  }

  /** The finite range of the wide format covers that of the narrow one. */
  lemma WideRange(f: Format, g: Format, a: nat, c: nat)
    requires Wider(f, g) && a < f.Inf() && Mag(g.P(), c) == Mag(f.P(), a) * Scale(f, g)
    ensures c < g.Inf()
  {
    hide Mag;
    InfMag(f);
    InfMag(g);
    MagOrder(f.P(), a, f.Inf());
    MulLess(Mag(f.P(), a), Mag(f.P(), f.Inf()), Scale(f, g));
    Pow2Add(f.frac + 2 * f.Bias(), g.Bias() + g.frac - (f.Bias() + f.frac));
    Pow2Mono(f.Bias() + g.Bias() + g.frac, g.frac + 2 * g.Bias());
    MagOrder(g.P(), c, g.Inf());
  }

  lemma MulLess(a: int, b: int, s: int)
    requires a < b && s > 0
    ensures a * s < b * s
  {
  }

  /** float -> double is exact. */
  lemma WidenExact(f: Format, g: Format, x: nat)
    requires Wider(f, g) && IsFinite(f, x)
    ensures var d := Widen(f, g, x);
            && IsFinite(g, d) && IsPattern(g, d) && Negative(g, d) == Negative(f, x)
            && Mag(g.P(), Code(g, d)) == Mag(f.P(), Code(f, x)) * Scale(f, g)
  {
    var c := WideCode(f, g, Code(f, x));
    WideRange(f, g, Code(f, x), c);
    ExactCode(g.P(), Mag(f.P(), Code(f, x)) * Scale(f, g), c);
    hide Mag, DownCode, Scale;
    PackParts(g, Negative(f, x), c);
  }

  /** double -> float of a number that is a float is exact, in every mode. */
  lemma NarrowExact(f: Format, g: Format, mode: Mode, r: nat, c: nat)
    requires Wider(f, g) && IsFinite(g, r) && c < f.Inf() && Mag(g.P(), Code(g, r)) == Mag(f.P(), c) * Scale(f, g)
    ensures var b := Narrow(f, g, mode, r); IsPattern(f, b) && Negative(f, b) == Negative(g, r) && Code(f, b) == c
  {
    hide Mag, RoundCode, Scale;
    RoundCodeBetween(f, Scale(f, g), mode, Negative(g, r), Mag(g.P(), Code(g, r)), c, c);
    PackParts(f, Negative(g, r), c);
  }

  lemma NearestScaled(u: nat, v: nat, n: nat, s: nat)
    requires s > 0
    ensures NearestAway(u * s, v * s, n) <==> NearestAway(u, v, n)
  {
    Associate(n, u, s);
    var d, e := v - n * u, n * u - v;
    assert d * s == v * s - n * (u * s) && e * s == n * (u * s) - v * s;
    CompareScaled(2 * d, u, s);
    CompareScaled(2 * e, u, s);
    CompareScaled(v, n * u, s);
  }

  lemma CompareScaled(a: int, b: int, s: int)
    requires s > 0
    ensures a <= b <==> a * s <= b * s
    ensures a == b <==> a * s == b * s
  {
    if a < b { MulLess(a, b, s); } else if b < a { MulLess(b, a, s); }
  }

  /** The nearest integer to a float is a float. */
  lemma RoundedIsNarrow(f: Format, x: nat, n: nat) returns (c: nat)
    requires Roomy(f) && IsFinite(f, x) && NearestAway(Unit(f), Mag(f.P(), Code(f, x)), n)
    ensures c < f.Inf() && Mag(f.P(), c) == n * Unit(f)
  {
    var a, u := Code(f, x), Unit(f);
    UnitIsPower(f);
    if PowerPattern(f, f.frac) <= a {
      var m := BigIsInteger(f, a);
      hide Mag, Unit;
      NearestSelf(u, m);
      NearestMonotone(u, m * u, m * u, n, m);
      NearestMonotone(u, m * u, m * u, m, n);
      c := a;
    } else {
      IntegerBinade(f, 0);
      MagOrder(f.P(), a, PowerPattern(f, f.frac));
      hide Mag, Unit;
      NearestSelf(u, f.P());
      NearestMonotone(u, Mag(f.P(), a), f.P() * u, n, f.P());
      c := IntegerCode(f, n);
    }
  }

  lemma NearestSelf(u: nat, m: nat)
    requires u > 0
    ensures NearestAway(u, m * u, m)
  {
  }

  /** Rounding in the wide format and converting back rounds in the narrow format: no double rounding. */
  lemma NarrowedRounding(f: Format, g: Format, mode: Mode, x: nat, r: nat)
    requires Wider(f, g) && IsFinite(f, x) && IsRounded(g, Widen(f, g, x), r)
    ensures IsRounded(f, x, Narrow(f, g, mode, r))
    ensures IsFinite(g, r) && Mag(g.P(), Code(g, r)) == Mag(f.P(), Code(f, Narrow(f, g, mode, r))) * Scale(f, g)
  {
    WidenExact(f, g, x);
    var n := RoundedParts(g, Widen(f, g, x), r);
    UnitScale(f, g);
    hide Mag, Unit, IsRounded, Widen, Narrow, NearestAway, Scale;
    NearestScaled(Unit(f), Mag(f.P(), Code(f, x)), n, Scale(f, g));
    var c := RoundedIsNarrow(f, x, n);
    Associate(n, Unit(f), Scale(f, g));
    NarrowExact(f, g, mode, r, c);
    Witness(f, x, Narrow(f, g, mode, r), n);
  }

  lemma FloatInDouble()
    ensures Wider(BINARY32, BINARY64)
  {
    DoubleConstants();
    assert Pow2(7) == 0x80;
  }

  lemma WidenIsPattern(f: Format, g: Format, x: nat)
    requires Wider(f, g)
    ensures IsPattern(g, Widen(f, g, x))
    ensures !IsFinite(f, x) ==> !IsFinite(g, Widen(f, g, x)) && IsNaN(g, Widen(f, g, x)) == IsNaN(f, x)
    ensures !IsFinite(f, x) && !IsNaN(f, x) ==> Negative(g, Widen(f, g, x)) == Negative(f, x)
  {
    if IsFinite(f, x) {
      WidenExact(f, g, x);
    } else {
      InfRoom(g);
    }
  }

  lemma InfRoom(f: Format)
    requires Roomy(f)
    ensures f.Inf() + 1 < f.SignBit()
  {
    assert Pow2(f.frac) == 2 * Pow2(f.frac - 1);
  }

  /** roundf for any pair of formats: correct on numbers and infinities, NaN on NaN. */
  lemma RoundsNarrow(f: Format, g: Format, mode: Mode, x: nat, r: nat)
    requires Wider(f, g) && IsPattern(f, x) && IsRounded(g, Widen(f, g, x), r)
    ensures var b := Narrow(f, g, mode, r);
            if IsNaN(f, x) then IsNaN(f, b) else IsRounded(f, x, b)
  {
    if IsFinite(f, x) {
      NarrowedRounding(f, g, mode, x, r);
    } else {
      WidenIsPattern(f, g, x);
      InfRoom(f);
    }
  }

  /** roundf(x) */
  method RoundFloat(mode: Mode, x: nat) returns (r: nat)
    requires IsPattern(BINARY32, x)
    ensures if IsNaN(BINARY32, x) then IsNaN(BINARY32, r) else IsRounded(BINARY32, x, r)
  {
    FloatInDouble();
    hide *;
    WidenIsPattern(BINARY32, BINARY64, x);
    var d := RoundDouble(mode, Widen(BINARY32, BINARY64, x));
    RoundsNarrow(BINARY32, BINARY64, mode, x, d);
    r := Narrow(BINARY32, BINARY64, mode, d);
  }

  // ----- lround() and llround()

  datatype Conversion = Converted(value: int) | Undefined

  /** The cast of a double to a signed integer type with the range -t .. t - 1: it truncates, and is undefined
    * when the truncated value does not fit (section 6.3.1.4 of ISO/IEC 9899:1999).
    */
  function Truncate(f: Format, t: nat, b: nat): Conversion
    requires Unit(f) > 0
  {
    if !IsFinite(f, b) then Undefined else
      var n: int := Mag(f.P(), Code(f, b)) / Unit(f);
      var v := if Negative(f, b) then -n else n;
      if 0 - t <= v < t then Converted(v) else Undefined
  }

  /** v is x without its fraction: its magnitude is the integer part of that of x, and it is 0 or has x's sign. */
  predicate IsTruncation(f: Format, x: nat, v: int) {
    && Distance(0, v) * Unit(f) <= Mag(f.P(), Code(f, x)) < (Distance(0, v) + 1) * Unit(f)
    && (v == 0 || (v < 0 <==> Negative(f, x)))
  }

  lemma TruncateMeans(f: Format, t: nat, x: nat)
    requires Unit(f) > 0
    ensures var c := Truncate(f, t, x);
            c.Converted? ==> IsFinite(f, x) && IsTruncation(f, x, c.value) && 0 - t <= c.value < t
    ensures IsFinite(f, x) ==>
              (Truncate(f, t, x).Converted? <==> exists v :: 0 - t <= v < t && IsTruncation(f, x, v))
  {
    if IsFinite(f, x) {
      var m, u := Mag(f.P(), Code(f, x)), Unit(f);
      var n := m / u;
      FloorBounds(m, u, n);
      hide Mag, Unit, Pow2;
      var w := if Negative(f, x) then -(n as int) else n;
      forall v | IsTruncation(f, x, v) ensures v == w {
        OneInteger(u, m, n, Distance(0, v));
      }
      assert IsTruncation(f, x, w);
    }
  }

  lemma OneInteger(u: nat, m: nat, n: nat, k: nat)
    requires u > 0 && n * u <= m < (n + 1) * u && k * u <= m < (k + 1) * u
    ensures n == k
  {
    if n < k { MulOrder(n + 1, k, u); } else if k < n { MulOrder(k + 1, n, u); }
  }

  /** v is the integer nearest to x, halfway cases away from zero. */
  ghost predicate NearestSigned(f: Format, x: nat, v: int) {
    exists n: nat :: NearestAway(Unit(f), Mag(f.P(), Code(f, x)), n) && v == if Negative(f, x) then 0 - n else n
  }

  /** The nearest integer is at most k exactly below k + 1/2. */
  lemma NearestAtMost(u: nat, v: nat, n: nat, k: nat)
    requires u > 0 && NearestAway(u, v, n)
    ensures n <= k <==> 2 * v < (2 * k + 1) * u
  {
    assert (2 * k + 1) * u == 2 * (k * u) + u;
    if n <= k {
      MulOrder(n, k, u);
    } else {
      MulOrder(k + 1, n, u);
      Distribute(k, u);
    }
  }

  /** x lies strictly between -t - 1/2 and t - 1/2. */
  predicate FitsAfterRounding(f: Format, t: nat, x: nat)
    requires t >= 1
  {
    IsFinite(f, x) &&
    if Negative(f, x) then 2 * Mag(f.P(), Code(f, x)) < (2 * t + 1) * Unit(f)
    else 2 * Mag(f.P(), Code(f, x)) < (2 * (t - 1) + 1) * Unit(f)
  }

  /** Casting the rounded value is defined exactly for those x, and gives the nearest integer. */
  lemma TruncateRounded(f: Format, t: nat, x: nat, r: nat)
    requires Roomy(f) && t >= 1 && IsRounded(f, x, r)
    ensures Unit(f) > 0
    ensures var c := Truncate(f, t, r);
            (c.Converted? <==> FitsAfterRounding(f, t, x)) && (c.Converted? ==> NearestSigned(f, x, c.value))
  {
    UnitIsPower(f);
    if IsFinite(f, x) {
      var n := RoundedParts(f, x, r);
      MultipleMod(n, Unit(f));
      NearestAtMost(Unit(f), Mag(f.P(), Code(f, x)), n, t);
      NearestAtMost(Unit(f), Mag(f.P(), Code(f, x)), n, t - 1);
      hide Mag, Unit, IsRounded, NearestAway;
      assert Truncate(f, t, r) ==
        if Negative(f, x) then if n <= t then Converted(0 - n) else Undefined
        else if n <= t - 1 then Converted(n) else Undefined;
    }
  }

  /** lround(x) and llround(x), for a result type with the range -t .. t - 1. */
  method RoundToInteger(mode: Mode, t: nat, x: nat) returns (c: Conversion)
    requires IsPattern(BINARY64, x) && t >= 1
    ensures c.Converted? <==> FitsAfterRounding(BINARY64, t, x)
    ensures c.Converted? ==> NearestSigned(BINARY64, x, c.value)
  {
    DoubleConstants();
    hide *;
    var r := RoundDouble(mode, x);
    TruncateRounded(BINARY64, t, x, r);
    c := Truncate(BINARY64, t, r);
  }

  // ----- Which patterns fit

  /** The code of the least positive number that rounds out of the range of k value bits: 2^k - 1/2 where it exists. */
  function HighLimit(f: Format, k: nat): int
    requires Roomy(f)
  {
    PowerPattern(f, k) - if k <= f.frac then Pow2(f.frac - k) else 0
  }

  /** The same for negative numbers: 2^k + 1/2 where it exists, or else the number after 2^k. */
  function LowLimit(f: Format, k: nat): nat
    requires Roomy(f)
  {
    PowerPattern(f, k) + if k < f.frac then Pow2(f.frac - k - 1) else 1
  }

  lemma PowerScale(f: Format, k: nat)
    requires Roomy(f) && 1 <= k <= f.Bias()
    ensures Pow2(k) * Unit(f) == 2 * (Pow2(k - 1) * Unit(f)) && Pow2(k - 1) * Unit(f) == f.P() * Pow2(f.Bias() + k - 2)
  {
    hide Unit, Pow2;
    BiasRoom(f);
    UnitIsPower(f);
    PowStep(k - 1);
    Pow2Add(k - 1, f.frac + f.Bias() - 1);
    Pow2Add(f.frac, f.Bias() + k - 2);
    Associate(2, Pow2(k - 1), Unit(f));
  }

  /** The number j places before 2^k. */
  lemma BelowPower(f: Format, k: nat, j: nat)
    requires Roomy(f) && 1 <= k <= f.Bias() && j <= f.P()
    ensures j <= PowerPattern(f, k)
    ensures Mag(f.P(), PowerPattern(f, k) - j) == Pow2(k) * Unit(f) - j * Pow2(f.Bias() + k - 2)
  {
    hide Mag, Unit, Pow2;
    var p := f.P();
    Distribute(f.Bias() + k - 1, p);
    MulOrder(0, f.Bias() + k - 1, p);
    BinadeValue(f, k - 1, p - j);
    PowerScale(f, k);
    DistributeMinus(p, j, Pow2(f.Bias() + k - 2));
  }

  lemma HighIsHalf(f: Format, k: nat)
    requires Roomy(f) && 1 <= k <= f.Bias() && k <= f.frac
    ensures HighLimit(f, k) >= 0 && 2 * Mag(f.P(), HighLimit(f, k)) == 2 * (Pow2(k) * Unit(f)) - Unit(f)
  {
    hide Mag, Unit, Pow2;
    Pow2Mono(f.frac - k, f.frac);
    BelowPower(f, k, Pow2(f.frac - k));
    BiasRoom(f);
    Pow2Add(f.frac - k, f.Bias() + k - 2);
    PowStep(f.frac + f.Bias() - 2);
    UnitIsPower(f);
  }

  lemma HighIsPower(f: Format, k: nat)
    requires Roomy(f) && 1 <= k <= f.Bias() && k > f.frac
    ensures HighLimit(f, k) >= 1 && Mag(f.P(), HighLimit(f, k)) == Pow2(k) * Unit(f)
    ensures Mag(f.P(), HighLimit(f, k) - 1) <= Pow2(k) * Unit(f) - Unit(f)
  {
    hide Mag, Unit, Pow2;
    BelowPower(f, k, 0);
    BelowPower(f, k, 1);
    BiasRoom(f);
    Pow2Mono(f.frac + f.Bias() - 1, f.Bias() + k - 2);
    UnitIsPower(f);
  }

  lemma LowIsHalf(f: Format, k: nat)
    requires Roomy(f) && k <= f.Bias() && k < f.frac
    ensures 2 * Mag(f.P(), LowLimit(f, k)) == 2 * (Pow2(k) * Unit(f)) + Unit(f)
  {
    hide Mag, Unit, Pow2;
    Pow2Mono(f.frac - k - 1, f.frac);
    BinadeValue(f, k, Pow2(f.frac - k - 1));
    HalfUnit(f, k);
  }

  lemma LowIsNext(f: Format, k: nat)
    requires Roomy(f) && k <= f.Bias() && k >= f.frac
    ensures LowLimit(f, k) >= 1 && Mag(f.P(), LowLimit(f, k) - 1) == Pow2(k) * Unit(f)
    ensures Mag(f.P(), LowLimit(f, k)) >= Pow2(k) * Unit(f) + Unit(f)
  {
    hide Mag, Unit, Pow2;
    BinadeValue(f, k, 0);
    BinadeValue(f, k, 1);
    BiasRoom(f);
    Pow2Mono(f.frac + f.Bias() - 1, f.Bias() + k - 1);
    UnitIsPower(f);
  }

  lemma LimitsFinite(f: Format, k: nat)
    requires Roomy(f) && 1 <= k <= f.Bias()
    ensures HighLimit(f, k) <= f.Inf() && LowLimit(f, k) <= f.Inf()
  {
    hide Pow2;
    if k < f.frac { Pow2Mono(f.frac - k - 1, f.frac); }
    PowStep(f.frac - 1);
    FiniteBinade(f, k, 1);
    if k < f.frac {
      Pow2Mono(f.frac - k - 1, f.frac - 1);
      FiniteBinade(f, k, Pow2(f.frac - k - 1));
    }
  }

  lemma TwiceThen(t: int, u: int)
    ensures (2 * t + 1) * u == 2 * (t * u) + u && (2 * (t - 1) + 1) * u == 2 * (t * u) - u
  {
  }

  /** The numbers whose nearest integer fits k value bits and a sign, by their patterns. */
  lemma FitsByPattern(f: Format, k: nat, x: nat)
    requires Roomy(f) && 1 <= k <= f.Bias()
    ensures FitsAfterRounding(f, Pow2(k), x) <==>
              Code(f, x) < if Negative(f, x) then LowLimit(f, k) else HighLimit(f, k)
  {
    hide Mag, Unit, Pow2, HighLimit, LowLimit;
    var p, c := f.P(), Code(f, x);
    LimitsFinite(f, k);
    UnitIsPower(f);
    TwiceThen(Pow2(k), Unit(f));
    if Negative(f, x) {
      MagOrder(p, c, LowLimit(f, k));
      if k < f.frac {
        LowIsHalf(f, k);
      } else {
        LowIsNext(f, k);
        MagOrder(p, c, LowLimit(f, k) - 1);
      }
    } else if k <= f.frac {
      HighIsHalf(f, k);
      MagOrder(p, c, HighLimit(f, k));
    } else {
      HighIsPower(f, k);
      MagOrder(p, c, HighLimit(f, k));
      MagOrder(p, c, HighLimit(f, k) - 1);
    }
  }

  /** The limits of long on Windows: 2147483647.5 and -2147483648.5, both excluded. */
  const LONG_HIGH: nat := 0x41DFFFFFFFE00000
  const LONG_LOW: nat := 0x41E0000000100000

  /** The limits of long long: 2^63 excluded, -2^63 included. */
  const LONGLONG_HIGH: nat := 0x43E0000000000000
  const LONGLONG_LOW: nat := 0x43E0000000000001

  lemma LongLimits()
    ensures HighLimit(BINARY64, 31) == LONG_HIGH && LowLimit(BINARY64, 31) == LONG_LOW
    ensures HighLimit(BINARY64, 63) == LONGLONG_HIGH && LowLimit(BINARY64, 63) == LONGLONG_LOW
  {
    DoubleConstants();
    assert Pow2(20) == 0x100000;
    assert Pow2(21) == 0x200000;
  }

  /** lround(x): defined exactly for x between the two limits. */
  method LRound(mode: Mode, x: nat) returns (c: Conversion)
    requires IsPattern(BINARY64, x)
    ensures c.Converted? <==> Code(BINARY64, x) < if Negative(BINARY64, x) then LONG_LOW else LONG_HIGH
    ensures c.Converted? ==> NearestSigned(BINARY64, x, c.value)
  {
    DoubleConstants();
    LongLimits();
    hide *;
    FitsByPattern(BINARY64, 31, x);
    c := RoundToInteger(mode, Pow2(31), x);
  }

  /** llround(x) */
  method LLRound(mode: Mode, x: nat) returns (c: Conversion)
    requires IsPattern(BINARY64, x)
    ensures c.Converted? <==> Code(BINARY64, x) < if Negative(BINARY64, x) then LONGLONG_LOW else LONGLONG_HIGH
    ensures c.Converted? ==> NearestSigned(BINARY64, x, c.value)
  {
    DoubleConstants();
    LongLimits();
    hide *;
    FitsByPattern(BINARY64, 63, x);
    c := RoundToInteger(mode, Pow2(63), x);
  }
}
