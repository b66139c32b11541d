/** round() of tcc_libm.h: adding and subtracting 2^52 in whatever rounding mode is in force. */
module Round {
  import opened Bits
  import opened Float

  /** The formats round() works for: 2^frac and its successors are finite. */
  predicate Roomy(f: Format) {
    f.Valid() && f.frac < f.Bias()
  }

  /** The pattern of 2^k, for -Bias < k. */
  function PowerPattern(f: Format, k: int): nat
    requires 0 <= f.Bias() + k
  {
    (f.Bias() + k) * f.P()
  }

  /** The magnitude of 1.0. */
  function Unit(f: Format): nat {
    Mag(f.P(), PowerPattern(f, 0))
  }

  /** n is the integer nearest to v / u, the greater one if two are equally near. */
  predicate NearestAway(u: nat, v: nat, n: nat) {
    2 * Distance(v, n * u) <= u && (2 * Distance(v, n * u) == u ==> n * u > v)
  }

  /** Section 7.12.9.6 of ISO/IEC 9899:1999: r is x rounded to the nearest integer, halfway cases away from
    * zero, with the sign of x; infinities and NaNs are returned unchanged.
    */
  ghost predicate IsRounded(f: Format, x: nat, r: nat) {
    if !IsFinite(f, x) then r == x
    else
      && IsFinite(f, r) && IsPattern(f, r) && Negative(f, r) == Negative(f, x)
      && exists n: nat :: Mag(f.P(), Code(f, r)) == n * Unit(f) && NearestAway(Unit(f), Mag(f.P(), Code(f, x)), n)
  }

  // ----- Arithmetic of the trick

  lemma BiasRoom(f: Format)
    requires Roomy(f)
    ensures f.Bias() >= 2
    ensures f.Inf() == (2 * f.Bias() + 1) * f.P()
  {
    Pow2Add(f.ebits, f.frac);
    assert Pow2(f.ebits) == 2 * Pow2(f.ebits - 1);
    assert f.SignBit() == Pow2(f.ebits) * f.P();
    assert Pow2(f.ebits) == 2 * f.Bias() + 2;
    Distribute(2 * f.Bias() + 1, f.P());
  }

  lemma Distribute(a: int, p: int)
    ensures (a + 1) * p == a * p + p
  {
  }

  /** Powers of two have the patterns PowerPattern gives them. */
  lemma PowerMag(f: Format, k: int)
    requires f.Valid() && 1 <= f.Bias() + k
    ensures Mag(f.P(), PowerPattern(f, k)) == Pow2(f.frac + f.Bias() + k - 1)
  {
    var e := f.Bias() + k;
    assert PowerPattern(f, k) == f.P() + (e - 1) * f.P() by { Distribute(e - 1, f.P()); }
    MagShift(f.P(), f.P(), e - 1);
    assert Mag(f.P(), f.P()) == f.P();
    Pow2Add(f.frac, e - 1);
  }

  lemma UnitIsPower(f: Format)
    requires Roomy(f)
    ensures Unit(f) == Pow2(f.frac + f.Bias() - 1) && Unit(f) > 0
    ensures Unit(f) % 2 == 0
  {
    hide Mag, PowerPattern, Pow2;
    BiasRoom(f);
    PowerMag(f, 0);
    PowStep(f.frac + f.Bias() - 2);
  }

  /** From 2^frac to 2^(frac+1) the numbers of the format are the integers. */
  lemma IntegerBinade(f: Format, j: nat)
    requires Roomy(f) && j <= f.P()
    ensures Mag(f.P(), PowerPattern(f, f.frac) + j) == (f.P() + j) * Unit(f)
  {
    var p, e := f.P(), f.Bias() + f.frac;
    assert PowerPattern(f, f.frac) + j == p + j + (e - 1) * p by { Distribute(e - 1, p); }
    MagShift(p, p + j, e - 1);
    assert Mag(p, p + j) == p + j;
    UnitIsPower(f);
  }

  /** Every integer up to 2^frac is a finite number of the format. */
  lemma IntegerCode(f: Format, n: nat) returns (c: nat)
    requires Roomy(f) && n <= f.P()
    ensures c < f.Inf() && Mag(f.P(), c) == n * Unit(f)
  {
    UnitIsPower(f);
    c := ScaledCode(f.P(), n, f.frac + f.Bias() - 1);
    BelowInf(f, c, n);
  }

  lemma BelowInf(f: Format, c: nat, n: nat)
    requires Roomy(f) && n <= f.P() && Mag(f.P(), c) == n * Unit(f)
    ensures c < f.Inf()
  {
    var p := f.P();
    UnitIsPower(f);
    IntegerBinade(f, 0);
    MulOrder(n, p, Unit(f));
    MagOrder(p, PowerPattern(f, f.frac), c);
    BiasRoom(f);
    MulOrder(f.Bias() + f.frac, 2 * f.Bias(), p);
    Distribute(2 * f.Bias(), p);
  }

  /** From 2^frac on every number is an integer. */
  lemma BigIsInteger(f: Format, c: nat) returns (n: nat)
    requires Roomy(f) && PowerPattern(f, f.frac) <= c
    ensures Mag(f.P(), c) == n * Unit(f)
  {
    var p, k := f.P(), f.Bias() + f.frac - 1;
    assert PowerPattern(f, f.frac) == p + k * p by { Distribute(k, p); }
    UnitIsPower(f);
    MagShift(p, c - k * p, k);
    n := Mag(p, c - k * p);
  }

  /** A number below 1/2 is nearest to 0. */
  lemma SmallIsNearZero(f: Format, c: nat)
    requires Roomy(f) && c < PowerPattern(f, -1)
    ensures NearestAway(Unit(f), Mag(f.P(), c), 0)
  {
    HalfIsHalf(f);
    MagOrder(f.P(), c, PowerPattern(f, -1));
  }

  lemma HalfIsHalf(f: Format)
    requires Roomy(f)
    ensures 2 * Mag(f.P(), PowerPattern(f, -1)) == Unit(f)
  {
    hide Mag, PowerPattern;
    BiasRoom(f);
    PowerMag(f, -1);
    UnitIsPower(f);
    assert Pow2(f.frac + f.Bias() - 1) == 2 * Pow2(f.frac + f.Bias() - 2);
  }

  /** The operands on which the trick is used: from 1/2 up to, not including, 2^frac. */
  predicate InTrickRange(f: Format, a: nat)
    requires Roomy(f)
  {
    f.Bias() >= 2 && PowerPattern(f, -1) <= a < PowerPattern(f, f.frac)
  }

  lemma TrickRange(f: Format, a: nat)
    requires Roomy(f) && InTrickRange(f, a)
    ensures a < f.Inf() && IsFinite(f, a) && !Negative(f, a)
    ensures PowerPattern(f, f.frac) + f.P() < f.Inf()
    ensures Unit(f) <= 2 * Mag(f.P(), a) && Mag(f.P(), a) < f.P() * Unit(f)
  {
    hide Mag;
    var p := f.P();
    BiasRoom(f);
    HalfIsHalf(f);
    MagOrder(p, a, PowerPattern(f, -1));
    IntegerBinade(f, 0);
    MagOrder(p, a, PowerPattern(f, f.frac));
    Distribute(f.Bias() + f.frac, p);
    MulOrder(f.Bias() + f.frac + 1, 2 * f.Bias(), p);
    Distribute(2 * f.Bias(), p);
  }

  /** Rounding to an integer in the current mode. */
  function Rint(mode: Mode, u: nat, v: nat): nat
    requires u > 0
  {
    var q := v / u;
    if q * u != v && RoundsAway(mode, false, v, q * u, (q + 1) * u, q) then q + 1 else q
  }

  lemma RintNear(mode: Mode, u: nat, v: nat)
    requires u > 0
    ensures 0 - u < Rint(mode, u, v) * u - v < u
    ensures mode != Upward ==> 2 * (Rint(mode, u, v) * u - v) <= u
  {
    FloorBounds(v, u, v / u);
    Distribute(v / u, u);
  }

  lemma Odd(p: nat, k: nat, q: nat)
    requires p % 2 == 0
    ensures (k * p + q) % 2 == q % 2
  {
    assert k * p == 2 * (k * (p / 2)) by { Doubling(k, p / 2); }
  }

  lemma SumParts(p: int, q: int, u: int)
    ensures (p + q) * u == p * u + q * u && (p + q + 1) * u == p * u + (q + 1) * u
  {
  }

  lemma IntegerPartSmall(x: nat, u: nat, p: nat, q: nat)
    requires q * u <= x < p * u
    ensures q < p
  {
    if p <= q { MulOrder(p, q, u); }
  }

  /** The numbers of the format around x + 2^frac; big is the pattern of 2^frac, q the integer part of x. */
  lemma NumbersAroundSum(f: Format, a: nat, big: nat, u: nat, x: nat, q: nat)
    requires Roomy(f) && InTrickRange(f, a) && big == PowerPattern(f, f.frac)
    requires u == Unit(f) && x == Mag(f.P(), a) && q * u <= x
    ensures Mag(f.P(), big) == f.P() * u && big + q + 1 < f.Inf()
    ensures Mag(f.P(), big + q) == f.P() * u + q * u && Mag(f.P(), big + q + 1) == f.P() * u + (q + 1) * u
  {
    TrickRange(f, a);
    hide *;
    IntegerPartSmall(x, u, f.P(), q);
    IntegerBinade(f, 0);
    IntegerBinade(f, q);
    IntegerBinade(f, q + 1);
    SumParts(f.P(), q, u);
  }

  lemma BigIsEven(f: Format, q: nat)
    requires Roomy(f)
    ensures (PowerPattern(f, f.frac) + q) % 2 == q % 2
  {
    assert f.P() == 2 * Pow2(f.frac - 1);
    Odd(f.P(), f.Bias() + f.frac, q);
  }

  /** Rounding above an even base is rounding without it. */
  lemma RintShift(mode: Mode, u: nat, x: nat, q: nat, base: nat, lo: nat)
    requires u > 0 && q == x / u && lo % 2 == q % 2
    ensures q * u <= x < (q + 1) * u
    ensures base + Rint(mode, u, x) * u
         == if base + q * u != x + base && RoundsAway(mode, false, x + base, base + q * u, base + (q + 1) * u, lo)
            then base + (q + 1) * u else base + q * u
  {
    FloorBounds(x, u, q);
  }

  lemma OperandsHold(f: Format, a: nat, big: nat, u: nat, x: nat)
    requires Roomy(f) && InTrickRange(f, a) && big == PowerPattern(f, f.frac)
    requires u == Unit(f) && x == Mag(f.P(), a)
    ensures Holds(f, a, x) && Holds(f, big, f.P() * u)
  {
    TrickRange(f, a);
    IntegerBinade(f, 0);
  }

  /** x + 2^frac rounds x to an integer in the current mode. */
  lemma FirstSum(f: Format, mode: Mode, a: nat, big: nat, u: nat, x: nat)
    requires Roomy(f) && InTrickRange(f, a) && big == PowerPattern(f, f.frac)
    requires u == Unit(f) && x == Mag(f.P(), a) && u > 0
    ensures Holds(f, a, x) && Holds(f, big, f.P() * u)
    ensures Holds(f, Add(f, mode, a, big), f.P() * u + Rint(mode, u, x) * u)
  {
    hide Mag, Rint, RoundsAway, PowerPattern, Unit, Add, Value, Pow2;
    var q := x / u;
    RintShift(mode, u, x, q, f.P() * u, big + q) by { BigIsEven(f, q); }
    NumbersAroundSum(f, a, big, u, x, q);
    OperandsHold(f, a, big, u, x);
    SumFrom(f, mode, a, big, x, f.P() * u, big + q, f.P() * u + q * u, f.P() * u + (q + 1) * u);
  }

  lemma SumFrom(f: Format, mode: Mode, x: nat, y: nat, vx: nat, vy: nat, lo: nat, a: nat, b: nat)
    requires Holds(f, x, vx) && Holds(f, y, vy) && vx + vy > 0
    requires a == Mag(f.P(), lo) && b == Mag(f.P(), lo + 1) && a <= vx + vy < b && lo + 1 < f.Inf()
    ensures Holds(f, Add(f, mode, x, y), if a != vx + vy && RoundsAway(mode, false, vx + vy, a, b, lo) then b else a)
  {
    AddFrom(f, mode, x, y, vx + vy, lo, a, b);
  }

  // ----- Everything after the first sum is exact

  lemma Multiples(m: int, k: int, n: int, u: int, x: int, s: int)
    requires u == k * s && x == m * s
    ensures n * u - x == (n * k - m) * s
  {
    assert n * (k * s) == n * k * s;
  }

  lemma CancelScale(d: nat, k: nat, s: nat)
    requires s > 0 && d * s <= k * s
    ensures d <= k
  {
    if d > k {
      MulOrder(k + 1, d, s);
      Distribute(k, s);
    }
  }

  /** The distance from x to an integer within one unit of it is a number of the format. */
  lemma OffsetCode(f: Format, a: nat, n: nat, u: nat, x: nat) returns (c: nat)
    requires Roomy(f) && InTrickRange(f, a) && u == Unit(f) && x == Mag(f.P(), a)
    requires Distance(n * u, x) <= u
    ensures c < f.Inf() && Mag(f.P(), c) == Distance(n * u, x)
  {
    var p := f.P();
    var e, m := a / p, p + a % p;
    ExponentRange(f, a, e);
    MagByFields(p, a);
    UnitIsPower(f);
    hide Mag;
    var s, k := Pow2(e - 1), Pow2(f.frac + f.Bias() - e);
    Pow2Add(f.frac + f.Bias() - e, e - 1);
    Multiples(m, k, n, u, x, s);
    var d: nat := Distance(n * k, m);
    assert d * s == Distance(n * u, x) by { ScaledDistance(n * k, m, s); }
    CancelScale(d, k, s);
    assert k <= 2 * p by {
      Pow2Mono(f.frac + f.Bias() - e, f.frac + 1);
    }
    c := ScaledCode(p, d, e - 1);
    OneIsFinite(f, c);
  }

  lemma ScaledDistance(a: int, b: int, s: nat)
    ensures Distance(a, b) * s == Distance(0, (a - b) * s)
  {
    if a <= b { MulOrder(0, b - a, s); } else { MulOrder(0, a - b, s); }
    assert (b - a) * s == -((a - b) * s);
  }

  lemma ExponentRange(f: Format, a: nat, e: nat)
    requires Roomy(f) && InTrickRange(f, a) && e == a / f.P()
    ensures f.Bias() - 1 <= e < f.Bias() + f.frac && e >= 1
  {
    BiasRoom(f);
    FloorBounds(a, f.P(), e);
    if e < f.Bias() - 1 { MulOrder(e + 1, f.Bias() - 1, f.P()); }
    if e >= f.Bias() + f.frac { MulOrder(f.Bias() + f.frac, e, f.P()); }
  }

  lemma OneIsFinite(f: Format, c: nat)
    requires Roomy(f) && Mag(f.P(), c) <= Unit(f)
    ensures c < f.Inf()
  {
    MagOrder(f.P(), PowerPattern(f, 0), c);
    BiasRoom(f);
    MulOrder(f.Bias(), 2 * f.Bias(), f.P());
    Distribute(2 * f.Bias(), f.P());
  }

  lemma ExactSum(f: Format, mode: Mode, a: nat, b: nat, va: int, vb: int, c: nat)
    requires Holds(f, a, va) && Holds(f, b, vb) && c < f.Inf() && Mag(f.P(), c) == Distance(0, va + vb)
    ensures Holds(f, Add(f, mode, a, b), va + vb)
  {
    AddExact(f, mode, a, b, c);
  }

  lemma ExactDifference(f: Format, mode: Mode, a: nat, b: nat, va: int, vb: int, c: nat)
    requires Holds(f, a, va) && Holds(f, b, vb) && c < f.Inf() && Mag(f.P(), c) == Distance(vb, va)
    ensures Holds(f, Sub(f, mode, a, b), va - vb)
  {
    NegateValue(f, b);
    AddExact(f, mode, a, Negate(f, b), c);
  }

  /** x + 2^frac - 2^frac is exactly x rounded to an integer in the current mode. */
  lemma SecondStep(f: Format, mode: Mode, s: nat, big: nat, r: nat, u: nat)
    requires Roomy(f) && u == Unit(f) && r <= f.P()
    requires Holds(f, s, f.P() * u + r * u) && Holds(f, big, f.P() * u)
    ensures Holds(f, Sub(f, mode, s, big), r * u)
  {
    hide Mag, Sub, Unit, Value;
    var c := IntegerCode(f, r);
    MulOrder(0, r, u);
    ExactDifference(f, mode, s, big, f.P() * u + r * u, f.P() * u, c);
  }

  /** (x + 2^frac) - 2^frac - x */
  function TrickOffset(f: Format, mode: Mode, a: nat): nat {
    var big := PowerPattern(f, f.frac);
    Sub(f, mode, Sub(f, mode, Add(f, mode, a, big), big), a)
  }

  /** The three branches that follow. */
  function Corrected(f: Format, mode: Mode, y: nat, a: nat): nat
    requires f.Bias() >= 1
  {
    if Less(f, PowerPattern(f, -1), y) then Sub(f, mode, Add(f, mode, y, a), PowerPattern(f, 0))
    else if LessEq(f, y, Negate(f, PowerPattern(f, -1))) then Add(f, mode, Add(f, mode, y, a), PowerPattern(f, 0))
    else Add(f, mode, y, a)
  }

  lemma RintRange(mode: Mode, u: nat, x: nat, p: nat)
    requires u > 0 && x < p * u
    ensures Rint(mode, u, x) <= p
  {
    FloorBounds(x, u, x / u);
    IntegerPartSmall(x, u, p, x / u);
  }

  /** The offset is exactly the distance from x to x rounded in the current mode. */
  lemma OffsetExact(f: Format, mode: Mode, a: nat, u: nat, x: nat)
    requires Roomy(f) && InTrickRange(f, a) && u == Unit(f) && x == Mag(f.P(), a) && u > 0
    ensures Holds(f, TrickOffset(f, mode, a), Rint(mode, u, x) * u - x)
  {
    var big, r := PowerPattern(f, f.frac), Rint(mode, u, x);
    TrickRange(f, a);
    RintRange(mode, u, x, f.P());
    RintNear(mode, u, x);
    hide Mag, Rint, PowerPattern, Unit, Add, Value, Pow2, Roomy, InTrickRange;
    FirstSum(f, mode, a, big, u, x);
    SecondStep(f, mode, Add(f, mode, a, big), big, r, u);
    var c := OffsetCode(f, a, r, u, x);
    ExactDifference(f, mode, Sub(f, mode, Add(f, mode, a, big), big), a, r * u, x, c);
  }

  lemma HalfHolds(f: Format, u: nat)
    requires Roomy(f) && u == Unit(f)
    ensures u % 2 == 0 && u > 0 && f.Bias() >= 2
    ensures Holds(f, PowerPattern(f, 0), u) && Holds(f, PowerPattern(f, -1), u / 2)
    ensures Holds(f, Negate(f, PowerPattern(f, -1)), -(u / 2))
  {
    BiasRoom(f);
    HalfIsHalf(f);
    UnitIsPower(f);
    OneIsFinite(f, PowerPattern(f, 0));
    OneIsFinite(f, PowerPattern(f, -1));
    NegateValue(f, PowerPattern(f, -1));
  }

  /** The integer the branches settle on, from x rounded in the current mode. */
  function Settled(u: nat, x: nat, r: nat): int {
    if 2 * (r * u - x) > u then r - 1 else if 2 * (r * u - x) <= -(u as int) then r + 1 else r
  }

  function SettledValue(u: nat, x: nat, v: int): int {
    if 2 * (v - x) > u then v - u else if 2 * (v - x) <= -(u as int) then v + u else v
  }

  lemma SettledIsNearest(u: nat, x: nat, r: nat, p: nat)
    requires u % 2 == 0 && 0 - u < r * u - x < u && u <= 2 * x && x < p * u
    ensures 1 <= Settled(u, x, r) <= p && NearestAway(u, x, Settled(u, x, r))
    ensures Settled(u, x, r) * u == SettledValue(u, x, r * u)
  {
    var n := Settled(u, x, r);
    Distribute(r, u);
    Distribute(r - 1, u);
    if n <= 0 { MulOrder(n, 0, u); }
    if n > p { MulOrder(p + 1, n, u); Distribute(p, u); }
  }

  lemma Branches(f: Format, y: nat, v: int, u: nat)
    requires Roomy(f) && u == Unit(f) && Holds(f, y, v)
    ensures f.Bias() >= 1
    ensures Less(f, PowerPattern(f, -1), y) <==> 2 * v > u
    ensures LessEq(f, y, Negate(f, PowerPattern(f, -1))) <==> 2 * v <= -(u as int)
  {
    HalfHolds(f, u);
  }

  /** Adding x back and correcting by one is exact; v and w are the integers before and after. */
  lemma CorrectionExact(f: Format, mode: Mode, y: nat, a: nat, u: nat, x: nat, v: nat, w: nat, c: nat, c': nat)
    requires Roomy(f) && u == Unit(f) && Holds(f, a, x) && Holds(f, y, v - x) && w == SettledValue(u, x, v)
    requires c < f.Inf() && c' < f.Inf() && Mag(f.P(), c) == v && Mag(f.P(), c') == w
    ensures f.Bias() >= 1 && Holds(f, Corrected(f, mode, y, a), w)
  {
    Branches(f, y, v - x, u);
    HalfHolds(f, u);
    hide Mag, PowerPattern, Unit, Add, Sub, Value, Pow2, Roomy, Less, LessEq, Negate, Holds;
    var z := Add(f, mode, y, a);
    ExactSum(f, mode, y, a, v - x, x, c);
    if 2 * (v - x) > u {
      ExactDifference(f, mode, z, PowerPattern(f, 0), v, u, c');
    } else if 2 * (v - x) <= -(u as int) {
      ExactSum(f, mode, z, PowerPattern(f, 0), v, u, c');
    }
  }

  /** The trick computes the nearest integer, halfway cases away from zero, in every rounding mode. */
  lemma TrickRounds(f: Format, mode: Mode, a: nat, u: nat, x: nat) returns (n: nat)
    requires Roomy(f) && InTrickRange(f, a) && u == Unit(f) && x == Mag(f.P(), a)
    ensures n >= 1 && NearestAway(u, x, n)
    ensures f.Bias() >= 1 && Holds(f, Corrected(f, mode, TrickOffset(f, mode, a), a), n * u)
  {
    HalfHolds(f, u);
    TrickRange(f, a);
    hide Mag, Rint, PowerPattern, Unit, Corrected, TrickOffset, NearestAway, Pow2, Roomy, Settled;
    var r := Rint(mode, u, x);
    RintNear(mode, u, x);
    RintRange(mode, u, x, f.P());
    SettledIsNearest(u, x, r, f.P());
    n := Settled(u, x, r);
    OffsetExact(f, mode, a, u, x);
    var c := IntegerCode(f, r);
    var c' := IntegerCode(f, n);
    CorrectionExact(f, mode, TrickOffset(f, mode, a), a, u, x, r * u, n * u, c, c');
  }

  /** Numbers of the binade of 2^k. */
  lemma BinadeValue(f: Format, k: nat, h: nat)
    requires Roomy(f) && k <= f.Bias() && h <= f.P()
    ensures Mag(f.P(), PowerPattern(f, k) + h) == Pow2(k) * Unit(f) + h * Pow2(f.Bias() + k - 1)
  {
    var p, e := f.P(), f.Bias() + k;
    BiasRoom(f);
    UnitIsPower(f);
    assert Mag(p, p + h) == p + h;
    Distribute(e - 1, p);
    MagShift(p, p + h, e - 1);
    hide Mag, Unit, Pow2;
    Pow2Add(f.frac, e - 1);
    Pow2Add(k, f.frac + f.Bias() - 1);
    SumParts(p, h, Pow2(e - 1));
  }

  lemma HalfUnit(f: Format, k: nat)
    requires Roomy(f) && k < f.frac
    ensures 2 * (Pow2(f.frac - k - 1) * Pow2(f.Bias() + k - 1)) == Unit(f)
  {
    BiasRoom(f);
    UnitIsPower(f);
    hide Unit, Mag;
    Pow2Add(f.frac - k - 1, f.Bias() + k - 1);
    assert Pow2(f.frac + f.Bias() - 1) == 2 * Pow2(f.frac + f.Bias() - 2);
  }

  lemma FiniteBinade(f: Format, k: nat, h: nat)
    requires Roomy(f) && k <= f.Bias() && h < f.P()
    ensures PowerPattern(f, k) + h < f.Inf()
  {
    BiasRoom(f);
    MulOrder(f.Bias() + k, 2 * f.Bias(), f.P());
    Distribute(2 * f.Bias(), f.P());
  }

  // ----- Which branch runs, and what is exact

  lemma RintGap(mode: Mode, u: nat, x: nat)
    requires u > 0
    ensures var r, t := Rint(mode, u, x), x % u;
            r * u - x == if r == x / u then -t else u - t
    ensures Rint(mode, u, x) == if x % u != 0 && RoundsAway(mode, false, x % u, 0, u, x / u) then x / u + 1 else x / u
  {
    FloorBounds(x, u, x / u);
    Distribute(x / u, u);
    assert x == x / u * u + x % u;
  }

  /** The branch y > 0.5 runs only in the mode that rounds up, and exactly when the fraction of x is below 1/2;
    * the branch y <= -0.5 runs exactly when a fraction of at least 1/2 was rounded down.
    */
  lemma BranchReached(f: Format, mode: Mode, a: nat, u: nat, x: nat)
    requires Roomy(f) && InTrickRange(f, a) && u == Unit(f) && x == Mag(f.P(), a)
    ensures u > 0 && f.Bias() >= 1
    ensures Less(f, PowerPattern(f, -1), TrickOffset(f, mode, a)) <==> mode == Upward && 0 < 2 * (x % u) < u
    ensures LessEq(f, TrickOffset(f, mode, a), Negate(f, PowerPattern(f, -1))) <==>
              u <= 2 * (x % u) &&
              (mode == TowardZero || mode == Downward || (mode == NearestEven && 2 * (x % u) == u && x / u % 2 == 0))
  {
    HalfHolds(f, u);
    OffsetExact(f, mode, a, u, x);
    RintGap(mode, u, x);
    hide Mag, Rint, PowerPattern, Unit, TrickOffset, Less, LessEq, Negate, Holds, InTrickRange;
    Branches(f, TrickOffset(f, mode, a), Rint(mode, u, x) * u - x, u);
  }

  /** x + 2^frac is exact just for integers. */
  lemma FirstSumExact(f: Format, mode: Mode, a: nat, big: nat, u: nat, x: nat)
    requires Roomy(f) && InTrickRange(f, a) && big == PowerPattern(f, f.frac)
    requires u == Unit(f) && x == Mag(f.P(), a)
    ensures u > 0
    ensures Value(f, Add(f, mode, a, big)) == Value(f, a) + Value(f, big) <==> x % u == 0
  {
    HalfHolds(f, u);
    RintGap(mode, u, x);
    hide Mag, Rint, PowerPattern, Unit, Add, Pow2, Roomy, InTrickRange, Value;
    FirstSum(f, mode, a, big, u, x);
  }

  /** After the early exits every operation but x + 2^frac is exact, in every mode: the two subtractions,
    * y + x, and the correction by 1 that the branch taken applies.
    */
  lemma ExactAfterFirstSum(f: Format, mode: Mode, a: nat, u: nat) returns (s: nat, d: nat, y: nat, z: nat)
    requires Roomy(f) && InTrickRange(f, a) && u == Unit(f)
    ensures var big := PowerPattern(f, f.frac);
            s == Add(f, mode, a, big) && d == Sub(f, mode, s, big) && y == Sub(f, mode, d, a) && z == Add(f, mode, y, a)
    ensures Holds(f, d, Value(f, s) - Value(f, PowerPattern(f, f.frac)))
    ensures Holds(f, y, Value(f, d) - Value(f, a))
    ensures Holds(f, z, Value(f, y) + Value(f, a))
    ensures f.Bias() >= 1 && y == TrickOffset(f, mode, a)
    ensures Holds(f, Corrected(f, mode, y, a), SettledValue(u, Mag(f.P(), a), Value(f, z)))
  {
    var big, x := PowerPattern(f, f.frac), Mag(f.P(), a);
    HalfHolds(f, u);
    var r := Rint(mode, u, x);
    TrickRange(f, a);
    RintRange(mode, u, x, f.P());
    RintNear(mode, u, x);
    SettledIsNearest(u, x, r, f.P());
    assert Holds(f, a, x);
    s := Add(f, mode, a, big);
    d := Sub(f, mode, s, big);
    y := Sub(f, mode, d, a);
    z := Add(f, mode, y, a);
    hide Mag, Rint, PowerPattern, Unit, Add, Pow2, Roomy, InTrickRange, Value;
    hide Sub, Settled, SettledValue, NearestAway, Corrected;
    FirstSum(f, mode, a, big, u, x);
    SecondStep(f, mode, s, big, r, u);
    var c := OffsetCode(f, a, r, u, x);
    ExactDifference(f, mode, d, a, r * u, x, c);
    var c' := IntegerCode(f, r);
    var c'' := IntegerCode(f, Settled(u, x, r));
    MulOrder(0, r, u);
    MulOrder(0, Settled(u, x, r), u);
    ExactSum(f, mode, y, a, r * u - x, x, c');
    CorrectionExact(f, mode, y, a, u, x, r * u, Settled(u, x, r) * u, c', c'');
  }

  // ----- The three cases of round()

  lemma Witness(f: Format, x: nat, r: nat, n: nat)
    requires IsFinite(f, x) && IsFinite(f, r) && IsPattern(f, r) && Negative(f, r) == Negative(f, x)
    requires Mag(f.P(), Code(f, r)) == n * Unit(f) && NearestAway(Unit(f), Mag(f.P(), Code(f, x)), n)
    ensures IsRounded(f, x, r)
  {
  }

  lemma BigCase(f: Format, x: nat)
    requires Roomy(f) && IsPattern(f, x) && PowerPattern(f, f.frac) <= Code(f, x)
    ensures IsRounded(f, x, x)
  {
    if IsFinite(f, x) {
      UnitIsPower(f);
      var n := BigIsInteger(f, Code(f, x));
      hide Mag, Unit, IsRounded;
      Witness(f, x, x, n);
    }
  }

  lemma SmallCase(f: Format, x: nat)
    requires Roomy(f) && IsPattern(f, x) && f.Bias() >= 1 && Code(f, x) < PowerPattern(f, -1)
    ensures IsRounded(f, x, TimesZero(f, x))
  {
    PackParts(f, Negative(f, x), 0);
    SmallIsNearZero(f, Code(f, x));
    HalfIsFinite(f);
    assert Mag(f.P(), 0) == 0;
    hide Mag, Unit, IsRounded, PowerPattern;
    Witness(f, x, TimesZero(f, x), 0);
  }

  lemma HalfIsFinite(f: Format)
    requires Roomy(f)
    ensures f.Bias() >= 1 && PowerPattern(f, -1) < f.Inf()
  {
    HalfHolds(f, Unit(f));
  }

  lemma MiddleCase(f: Format, mode: Mode, x: nat)
    requires Roomy(f) && IsPattern(f, x) && InTrickRange(f, Code(f, x))
    ensures var y := Corrected(f, mode, TrickOffset(f, mode, Code(f, x)), Code(f, x));
            IsRounded(f, x, if Negative(f, x) then Negate(f, y) else y)
  {
    var a := Code(f, x);
    TrickRange(f, a);
    UnitIsPower(f);
    var n := TrickRounds(f, mode, a, Unit(f), Mag(f.P(), a));
    var y := Corrected(f, mode, TrickOffset(f, mode, a), a);
    MulOrder(1, n, Unit(f));
    assert Negate(f, y) == Pack(f, true, Code(f, y)) && y == Pack(f, false, Code(f, y)) by { PositiveIsPlain(f, y); }
    hide Mag, Unit, IsRounded, Corrected, TrickOffset, NearestAway;
    PackParts(f, true, Code(f, y));
    PackParts(f, false, Code(f, y));
    Witness(f, x, Pack(f, Negative(f, x), Code(f, y)), n);
  }

  lemma PositiveIsPlain(f: Format, y: nat)
    requires IsFinite(f, y) && Value(f, y) > 0
    ensures !Negative(f, y) && Mag(f.P(), Code(f, y)) == Value(f, y)
  {
  }

  /** What the exponent of x says about which case applies. */
  lemma RoundCases(f: Format, mode: Mode, x: nat)
    requires Roomy(f) && IsPattern(f, x)
    ensures f.Bias() >= 1
    ensures ExponentField(f, x) >= f.Bias() + f.frac ==> IsRounded(f, x, x)
    ensures ExponentField(f, x) < f.Bias() - 1 ==> IsRounded(f, x, TimesZero(f, x))
    ensures f.Bias() - 1 <= ExponentField(f, x) < f.Bias() + f.frac ==>
              var y := Corrected(f, mode, TrickOffset(f, mode, Code(f, x)), Code(f, x));
              IsRounded(f, x, if Negative(f, x) then Negate(f, y) else y)
  {
    BiasRoom(f);
    Fields(f, x);
    DivOrder(Code(f, x), f.P(), f.Bias() + f.frac);
    DivOrder(Code(f, x), f.P(), f.Bias() - 1);
    hide Mag, Unit, IsRounded, Corrected, TrickOffset, NearestAway, ExponentField, TimesZero, Negate;
    if ExponentField(f, x) >= f.Bias() + f.frac {
      BigCase(f, x);
    } else if ExponentField(f, x) < f.Bias() - 1 {
      SmallCase(f, x);
    } else {
      MiddleCase(f, mode, x);
    }
  }

  // ----- round()

  /** The constants of round(): 0x1p52, 1, 0.5. */
  const TWO52: nat := 0x4330000000000000
  const ONE: nat := 0x3ff0000000000000
  const HALF: nat := 0x3fe0000000000000

  lemma FloatConstants()
    ensures BINARY32.P() == 0x800000 && BINARY32.Bias() == 0x7f && BINARY32.SignBit() == 0x80000000
    ensures BINARY32.Inf() == 0x7f800000 && Roomy(BINARY32)
    ensures PowerPattern(BINARY32, 0) == 0x3f800000
  {
    assert Pow2(7) == 0x80;
    Pow2Add(7, 8);
    Pow2Add(8, 15);
    Pow2Add(8, 23);
  }

  lemma DoubleConstants()
    ensures BINARY64.P() == 0x10000000000000 && BINARY64.Bias() == 0x3ff && BINARY64.SignBit() == 0x8000000000000000
    ensures Roomy(BINARY64)
    ensures PowerPattern(BINARY64, 52) == TWO52
    ensures PowerPattern(BINARY64, 0) == ONE && PowerPattern(BINARY64, -1) == HALF
  {
    assert Pow2(13) == 0x2000;
    Pow2Add(13, 13);
    Pow2Add(26, 26);
    assert Pow2(11) == 0x800;
    Pow2Add(11, 52);
  }
}
