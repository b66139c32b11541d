/** Number macros of luaconf.h: floor division and modulus, and the float-to-integer range test. */
module LuaNumber {
  import opened Bits
  import opened Float
  import opened Round
  import opened Libm
  import opened Convert

  // ----- luai_numidiv and luai_nummod over exact reals

  function Trunc(x: real): int {
    if x < 0.0 then -(-x).Floor else x.Floor
  }

  /** The C function fmod: the remainder of division truncated toward zero. */
  function FMod(a: real, b: real): real
    requires b != 0.0
  {
    a - Trunc(a / b) as real * b
  }

  function FloorDiv(a: real, b: real): int
    requires b != 0.0
  {
    (a / b).Floor
  }

  /** m lies between 0 and b, 0 included and b excluded. */
  predicate InDivisorRange(m: real, b: real) {
    if b > 0.0 then 0.0 <= m < b else b < m <= 0.0
  }

  lemma QuotientParts(a: real, b: real, q: real, k: int)
    requires b != 0.0 && q == a / b
    ensures a - k as real * b == (q - k as real) * b
  {
    assert q * b == a;
  }

  /** The sign and size of p, the product of r and b. */
  lemma SignOfProduct(r: real, b: real, p: real)
    requires b != 0.0 && p == r * b
    ensures 0.0 <= r < 1.0 ==> InDivisorRange(p, b)
    ensures r < 0.0 <==> p * b < 0.0
  {
    assert b * b > 0.0;
    assert p * b == r * (b * b);
    assert b - p == (1.0 - r) * b;
  }

  /** The correction runs exactly when the quotient is negative and not an integer. */
  lemma CorrectionNeeded(a: real, b: real)
    requires b != 0.0
    ensures FMod(a, b) * b < 0.0 <==> a / b < 0.0 && (a / b).Floor as real != a / b
    ensures FMod(a, b) * b < 0.0 ==> Trunc(a / b) == FloorDiv(a, b) + 1
    ensures FMod(a, b) * b >= 0.0 ==> Trunc(a / b) == FloorDiv(a, b)
  {
    var q := a / b;
    QuotientParts(a, b, q, Trunc(q));
    SignOfProduct(q - Trunc(q) as real, b, FMod(a, b));
  }

  /** luai_nummod(L, a, b, m) */
  method NumMod(a: real, b: real) returns (m: real)
    requires b != 0.0
    ensures m == a - FloorDiv(a, b) as real * b
    ensures InDivisorRange(m, b)
  {
    m := FMod(a, b);
    CorrectionNeeded(a, b);
    ModInRange(a, b);
    if m * b < 0.0 {
      m := m + b;
    }
  }

  lemma ModInRange(a: real, b: real)
    requires b != 0.0
    ensures InDivisorRange(a - FloorDiv(a, b) as real * b, b)
    ensures a - (FloorDiv(a, b) + 1) as real * b + b == a - FloorDiv(a, b) as real * b
  {
    var q, k := a / b, FloorDiv(a, b);
    var r := q - k as real;
    QuotientParts(a, b, q, k);
    assert 0.0 <= r < 1.0;
    SignOfProduct(r, b, a - k as real * b);
    NextMultiple(a, b, k);
  }

  lemma NextMultiple(a: real, b: real, k: int)
    ensures a - (k + 1) as real * b + b == a - k as real * b
  {
    assert (k + 1) as real == k as real + 1.0;
  }

  lemma OnlyZeroMultiple(d: int, b: real, x: real)
    requires x == d as real * b && (if b > 0.0 then -b < x < b else b < x < -b)
    ensures d == 0
  {
    assert x - b == (d as real - 1.0) * b && x + b == (d as real + 1.0) * b;
  }

  /** Quotient and modulus are the only integer and remainder in the divisor's range that make up a. */
  lemma DivModDetermined(a: real, b: real, q: int, m: real)
    requires b != 0.0 && InDivisorRange(m, b)
    ensures a == q as real * b + m <==> q == FloorDiv(a, b) && m == a - FloorDiv(a, b) as real * b
  {
    ModInRange(a, b);
    var k := FloorDiv(a, b);
    if a == q as real * b + m {
      var x := (a - k as real * b) - m;
      assert x == (q - k) as real * b by { Difference(q, k, b); }
      OnlyZeroMultiple(q - k, b, x);
    }
  }

  lemma Difference(q: int, k: int, b: real)
    ensures (q - k) as real * b == q as real * b - k as real * b
  {
    assert (q - k) as real == q as real - k as real;
  }

  // ----- lua_numbertointeger

  /** The pattern of 2^k, the bound of an integer type with k value bits, is exact. */
  predicate BoundExists(f: Format, k: nat) {
    Roomy(f) && k <= f.Bias()
  }

  lemma BoundValue(f: Format, k: nat)
    requires BoundExists(f, k)
    ensures Holds(f, PowerPattern(f, k), Pow2(k) * Unit(f)) && Unit(f) > 0
    ensures Holds(f, Negate(f, PowerPattern(f, k)), -(Pow2(k) * Unit(f)))
  {
    hide Mag;
    BiasRoom(f);
    UnitIsPower(f);
    PowerMag(f, k);
    Pow2Add(k, f.frac + f.Bias() - 1);
    MulOrder(f.Bias() + k, 2 * f.Bias(), f.P());
    Distribute(2 * f.Bias(), f.P());
    hide PowerPattern, Unit, Pow2;
    NegateValue(f, PowerPattern(f, k));
  }

  /** n >= MININTEGER && n < -MININTEGER, both bounds converted to the float type. */
  predicate InIntegerRange(f: Format, k: nat, n: nat) {
    LessEq(f, Negate(f, PowerPattern(f, k)), n) && Less(f, n, PowerPattern(f, k))
  }

  /** lua_numbertointeger(n, p): p0 is what p holds before. */
  method NumberToInteger(f: Format, k: nat, n: nat, p0: int) returns (ok: bool, p: int)
    requires BoundExists(f, k) && IsPattern(f, n)
    ensures Unit(f) > 0
    ensures ok <==> IsFinite(f, n) && -(Pow2(k) * Unit(f)) <= Value(f, n) < Pow2(k) * Unit(f)
    ensures ok ==> IsTruncation(f, n, p)
    ensures !ok ==> p == p0
    ensures ok <==> Truncate(f, Pow2(k), n).Converted? && !JustBelow(f, k, n)
  {
    ok, p := false, p0;
    RangeTest(f, k, n);
    TruncateMeans(f, Pow2(k), n);
    if IsFinite(f, n) { RangeOfFinite(f, k, n); } else { RangeOfOthers(f, k, n); }
    hide Mag, Unit, Pow2, Truncate, InIntegerRange, PowerPattern, IsTruncation, Value, JustBelow;
    if InIntegerRange(f, k, n) {
      ok, p := true, Truncate(f, Pow2(k), n).value;
    }
  }

  /** n lies strictly between MININTEGER - 1 and MININTEGER. */
  predicate JustBelow(f: Format, k: nat, n: nat) {
    && IsFinite(f, n)
    && -((Pow2(k) + 1) * Unit(f)) < Value(f, n) < -(Pow2(k) * Unit(f))
  }

  lemma TruncateFits(f: Format, t: nat, b: nat)
    requires Unit(f) > 0 && IsFinite(f, b) && t > 0
    ensures Truncate(f, t, b).Converted? <==> -((t + 1) * Unit(f)) < Value(f, b) < t * Unit(f)
  {
    hide Mag, Unit;
    var v := Mag(f.P(), Code(f, b));
    QuotientBelow(v, Unit(f), t);
    QuotientBelow(v, Unit(f), t + 1);
    assert t * Unit(f) > 0 && (t + 1) * Unit(f) > 0;
    if Negative(f, b) { assert Value(f, b) + v == 0; } else { assert Value(f, b) == v; }
  }

  lemma RangeOfFinite(f: Format, k: nat, n: nat)
    requires BoundExists(f, k) && IsFinite(f, n)
    ensures InIntegerRange(f, k, n) <==> -(Pow2(k) * Unit(f)) <= Value(f, n) < Pow2(k) * Unit(f)
  {
    BoundValue(f, k);
    hide Mag, PowerPattern, Unit, Pow2, Negate;
  }

  lemma RangeOfOthers(f: Format, k: nat, n: nat)
    requires BoundExists(f, k) && !IsFinite(f, n)
    ensures !InIntegerRange(f, k, n)
  {
    BoundValue(f, k);
    InfinityIsLargest(f, PowerPattern(f, k));
    InfinityIsLargest(f, Negate(f, PowerPattern(f, k)));
    if !IsNaN(f, n) { InfinityIsLargest(f, n); }
    hide Mag, PowerPattern, Unit, Pow2, Negate;
  }

  /** The test accepts exactly the numbers whose truncation fits, except those just below the least integer. */
  lemma RangeTest(f: Format, k: nat, n: nat)
    requires BoundExists(f, k)
    ensures Unit(f) > 0
    ensures InIntegerRange(f, k, n) <==> Truncate(f, Pow2(k), n).Converted? && !JustBelow(f, k, n)
  {
    BoundValue(f, k);
    hide Mag, PowerPattern, Unit, Pow2, Negate, InIntegerRange, BoundExists;
    if IsFinite(f, n) {
      RangeOfFinite(f, k, n);
      TruncateFits(f, Pow2(k), n);
      Distribute(Pow2(k), Unit(f));
      hide Value, Truncate;
    } else {
      RangeOfOthers(f, k, n);
    }
  }

  /** An integral number passes the test exactly when it is in the range of the integer type. */
  lemma IntegralRange(f: Format, k: nat, n: nat, i: nat)
    requires BoundExists(f, k) && IsPattern(f, n) && IsFinite(f, n) && Mag(f.P(), Code(f, n)) == i * Unit(f)
    ensures InIntegerRange(f, k, n) <==> if Negative(f, n) then i <= Pow2(k) else i < Pow2(k)
  {
    hide Mag, PowerPattern, Unit, Pow2, Negate, Value, InIntegerRange;
    BoundValue(f, k);
    RangeOfFinite(f, k, n);
    CompareScaled(i, Pow2(k), Unit(f));
    CompareScaled(Pow2(k), i, Unit(f));
    ValueOfParts(f, n, i * Unit(f));
    SignedRange(Negative(f, n), i * Unit(f), Pow2(k) * Unit(f));
  }

  lemma ValueOfParts(f: Format, n: nat, m: nat)
    requires Mag(f.P(), Code(f, n)) == m
    ensures Value(f, n) == if Negative(f, n) then 0 - m else m
  {
  }

  lemma SignedRange(neg: bool, m: nat, t: nat)
    requires t > 0
    ensures var v := if neg then 0 - m else m; -(t as int) <= v < t <==> if neg then m <= t else m < t
  {
  }

  lemma NoMultipleBetween(i: nat, t: nat, u: nat)
    requires u > 0
    ensures !(t * u < i * u < (t + 1) * u)
  {
    if i <= t { MulOrder(i, t, u); } else { MulOrder(t + 1, i, u); }
  }

  /** When the integer type has at least as many value bits as the fraction field, nothing lies just below
    * the least integer; this is the case of long long with double.
    */
  lemma NothingJustBelow(f: Format, k: nat, n: nat)
    requires BoundExists(f, k) && f.frac <= k
    ensures !JustBelow(f, k, n)
  {
    BoundValue(f, k);
    hide Mag, Unit, Pow2, PowerPattern;
    if JustBelow(f, k, n) {
      var i := FarIsInteger(f, k, Code(f, n));
      NoMultipleBetween(i, Pow2(k), Unit(f));
    }
  }

  lemma FarIsInteger(f: Format, k: nat, c: nat) returns (i: nat)
    requires BoundExists(f, k) && f.frac <= k && Pow2(k) * Unit(f) < Mag(f.P(), c)
    ensures Mag(f.P(), c) == i * Unit(f)
  {
    hide Mag, Unit, PowerPattern;
    BoundValue(f, k);
    IntegerBinade(f, 0);
    Pow2Mono(f.frac, k);
    MulOrder(Pow2(f.frac), Pow2(k), Unit(f));
    MagOrder(f.P(), PowerPattern(f, f.frac), c);
    i := BigIsInteger(f, c);
  }

  /** The pattern of -(2^k + 1/2). */
  function HalfBelow(f: Format, k: nat): nat
    requires k < f.frac
  {
    Pack(f, true, PowerPattern(f, k) + Pow2(f.frac - k - 1))
  }

  lemma HalfBelowValue(f: Format, k: nat)
    requires BoundExists(f, k) && k < f.frac
    ensures Holds(f, HalfBelow(f, k), -(Pow2(k) * Unit(f) + Unit(f) / 2)) && Unit(f) > 1
  {
    hide Mag, Unit, PowerPattern;
    var h := Pow2(f.frac - k - 1);
    Pow2Mono(f.frac - k - 1, f.frac);
    UnitIsPower(f);
    BinadeValue(f, k, h);
    FiniteBinade(f, k, h);
    HalfUnit(f, k);
    PackParts(f, true, PowerPattern(f, k) + h);
  }

  /** With fewer value bits there is a number whose truncation is the least integer and which the test rejects. */
  lemma RejectedHalf(f: Format, k: nat)
    requires BoundExists(f, k) && k < f.frac
    ensures Unit(f) > 0
    ensures !InIntegerRange(f, k, HalfBelow(f, k)) && Truncate(f, Pow2(k), HalfBelow(f, k)).Converted?
  {
    hide Mag, Unit, Pow2, BoundExists, PowerPattern, HalfBelow, Truncate, InIntegerRange, Value;
    HalfBelowValue(f, k);
    RangeOfFinite(f, k, HalfBelow(f, k));
    TruncateFits(f, Pow2(k), HalfBelow(f, k));
    Distribute(Pow2(k), Unit(f));
  }

  /** The test agrees with "the truncation fits" on every number exactly when the integer type has
    * at least as many value bits as the fraction field.
    */
  lemma RangeTestExact(f: Format, k: nat)
    requires BoundExists(f, k)
    ensures Unit(f) > 0
    ensures f.frac <= k <==> forall n: nat :: InIntegerRange(f, k, n) <==> Truncate(f, Pow2(k), n).Converted?
  {
    BoundValue(f, k);
    if f.frac <= k {
      forall n: nat ensures InIntegerRange(f, k, n) <==> Truncate(f, Pow2(k), n).Converted? {
        RangeTest(f, k, n);
        NothingJustBelow(f, k, n);
      }
    } else {
      RejectedHalf(f, k);
    }
  }

  /** For a 32-bit integer and double the rejected number is -2147483648.5. */
  lemma RejectedByInt32()
    ensures BoundExists(BINARY64, 31) && HalfBelow(BINARY64, 31) == 0xC1E0000000100000
  {
    DoubleConstants();
    assert Pow2(20) == 0x100000;
  }
}
