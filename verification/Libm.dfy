/** The rounding functions of tcc_libm.h on bit patterns. */
module Libm {
  import opened Bits
  import opened Float
  import opened Round

  /** round(x); mode is the rounding direction in force when it is called. */
  method RoundDouble(mode: Mode, x: nat) returns (r: nat)
    requires IsPattern(BINARY64, x)
    ensures IsRounded(BINARY64, x, r)
  {
    DoubleConstants();
    Fields(BINARY64, x);
    RoundCases(BINARY64, mode, x);
    hide *;
    var e := ExponentField(BINARY64, x);
    if e >= 0x3ff + 52 {
      return x;
    }
    var a := x;
    if SignField(BINARY64, x) != 0 {
      a := Negate(BINARY64, x);
    }
    if e < 0x3ff - 1 {
      return TimesZero(BINARY64, x);
    }
    var y := Sub(BINARY64, mode, Sub(BINARY64, mode, Add(BINARY64, mode, a, TWO52), TWO52), a);
    if Less(BINARY64, HALF, y) {
      y := Sub(BINARY64, mode, Add(BINARY64, mode, y, a), ONE);
    } else if LessEq(BINARY64, y, Negate(BINARY64, HALF)) {
      y := Add(BINARY64, mode, Add(BINARY64, mode, y, a), ONE);
    } else {
      y := Add(BINARY64, mode, y, a);
    }
    if SignField(BINARY64, x) != 0 {
      y := Negate(BINARY64, y);
    }
    return y;
  }

  // ----- What the rounding relation says

  /** Nearest integers are monotone, hence unique. */
  lemma NearestMonotone(u: nat, v: nat, w: nat, n: nat, m: nat)
    requires u > 0 && v <= w && NearestAway(u, v, n) && NearestAway(u, w, m)
    ensures n <= m
  {
    if n > m {
      MulOrder(m + 1, n, u);
      Distribute(m, u);
    }
  }

  /** Among all integers none is nearer, and none as near is farther from zero. */
  lemma NoneNearer(u: nat, v: nat, n: nat, m: nat)
    requires u > 0 && NearestAway(u, v, n)
    ensures Distance(v, n * u) <= Distance(v, m * u)
    ensures Distance(v, n * u) == Distance(v, m * u) ==> m <= n
  {
    if m > n {
      MulOrder(n + 1, m, u);
      Distribute(n, u);
    } else if m < n {
      MulOrder(m + 1, n, u);
      Distribute(m, u);
    }
  }

  lemma RoundedParts(f: Format, x: nat, r: nat) returns (n: nat)
    requires Roomy(f) && IsFinite(f, x) && IsRounded(f, x, r)
    ensures Unit(f) > 0 && Mag(f.P(), Code(f, r)) == n * Unit(f)
    ensures NearestAway(Unit(f), Mag(f.P(), Code(f, x)), n)
    ensures IsFinite(f, r) && IsPattern(f, r) && Negative(f, r) == Negative(f, x)
  {
    UnitIsPower(f);
    n :| Mag(f.P(), Code(f, r)) == n * Unit(f) && NearestAway(Unit(f), Mag(f.P(), Code(f, x)), n);
  }

  /** The result is one bit pattern, so round() does not depend on the rounding mode. */
  lemma RoundedUnique(f: Format, x: nat, r: nat, s: nat)
    requires Roomy(f) && IsRounded(f, x, r) && IsRounded(f, x, s)
    ensures r == s
  {
    if IsFinite(f, x) {
      var n := RoundedParts(f, x, r);
      var m := RoundedParts(f, x, s);
      var v := Mag(f.P(), Code(f, x));
      NearestMonotone(Unit(f), v, v, n, m);
      NearestMonotone(Unit(f), v, v, m, n);
      hide Mag, Unit, NearestAway, IsRounded;
      PatternUnique(f, r, s);
    }
  }

  lemma RoundedOdd(f: Format, x: nat, r: nat)
    requires Roomy(f) && IsPattern(f, x) && IsRounded(f, x, r)
    ensures IsRounded(f, Negate(f, x), Negate(f, r))
  {
    if IsFinite(f, x) {
      var n := RoundedParts(f, x, r);
      PackParts(f, !Negative(f, x), Code(f, x));
      PackParts(f, !Negative(f, r), Code(f, r));
      hide Mag, Unit, NearestAway, IsRounded;
      Witness(f, Negate(f, x), Negate(f, r), n);
    }
  }

  lemma RoundedIdempotent(f: Format, x: nat, r: nat)
    requires Roomy(f) && IsRounded(f, x, r)
    ensures IsRounded(f, r, r)
  {
    if IsFinite(f, x) {
      var n := RoundedParts(f, x, r);
      Witness(f, r, r, n);
    }
  }

  /** r is within 1/2 of x. */
  lemma RoundedWithinHalf(f: Format, x: nat, r: nat)
    requires Roomy(f) && IsFinite(f, x) && IsRounded(f, x, r)
    ensures 2 * Distance(Value(f, x), Value(f, r)) <= Unit(f)
  {
    var n := RoundedParts(f, x, r);
  }

  lemma InfinityIsLargest(f: Format, b: nat)
    requires !IsNaN(f, b)
    ensures Distance(0, Value(f, b)) <= Mag(f.P(), f.Inf())
    ensures Distance(0, Value(f, b)) == Mag(f.P(), f.Inf()) <==> !IsFinite(f, b)
  {
    MagOrder(f.P(), Code(f, b), f.Inf());
  }

  lemma RoundedMonotone(f: Format, x: nat, y: nat, r: nat, s: nat)
    requires Roomy(f) && IsPattern(f, x) && IsPattern(f, y) && LessEq(f, x, y)
    requires IsRounded(f, x, r) && IsRounded(f, y, s)
    ensures LessEq(f, r, s)
  {
    if IsFinite(f, x) && IsFinite(f, y) {
      var n := RoundedParts(f, x, r);
      var m := RoundedParts(f, y, s);
      if !Negative(f, x) && !Negative(f, y) {
        NearestMonotone(Unit(f), Mag(f.P(), Code(f, x)), Mag(f.P(), Code(f, y)), n, m);
        MulOrder(n, m, Unit(f));
      } else if Negative(f, x) && Negative(f, y) {
        NearestMonotone(Unit(f), Mag(f.P(), Code(f, y)), Mag(f.P(), Code(f, x)), m, n);
        MulOrder(m, n, Unit(f));
      } else if Negative(f, y) {
        NearestMonotone(Unit(f), 0, 0, n, 0);
        NearestMonotone(Unit(f), 0, 0, m, 0);
      }
    } else {
      InfinityIsLargest(f, x);
      InfinityIsLargest(f, y);
      InfinityIsLargest(f, r);
      InfinityIsLargest(f, s);
    }
  }
}
