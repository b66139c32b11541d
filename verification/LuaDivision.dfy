/** luai_numidiv of luaconf.h on floating-point numbers, and the law that ties it to luai_nummod. */
module LuaDivision {
  import opened Bits
  import opened Float
  import opened Round
  import opened LuaFloat

  // ----- The C operations

  /** |a| in units Unit times finer than the smallest subnormal. */
  function Numerator(f: Format, a: nat): nat { Times(Size(f, a), Unit(f)) }

  /** a / b: numbers of the format count |b| units each of the numerator. */
  function Divide(f: Format, mode: Mode, a: nat, b: nat): nat {
    var neg := Negative(f, a) != Negative(f, b);
    if IsNaN(f, a) || IsNaN(f, b) then SomeNaN(f)
    else if (!IsFinite(f, a) && !IsFinite(f, b)) || (IsZero(f, a) && IsZero(f, b)) then SomeNaN(f)
    else if !IsFinite(f, a) || IsZero(f, b) then Pack(f, neg, f.Inf())
    else if !IsFinite(f, b) then Pack(f, neg, 0)
    else
      SizeZero(f, b);
      Pack(f, neg, RoundCode(f, Size(f, b), mode, neg, Numerator(f, a)))
  }

  /** floor(q); -0 and numbers that are not finite are returned unchanged. */
  function Floor(f: Format, q: nat): nat
    requires Unit(f) > 0
  {
    if !IsFinite(f, q) then q else
      var n := Value(f, q) / Unit(f);
      Pack(f, Negative(f, q), DownCode(f.P(), Distance(0, n) * Unit(f)))
  }

  /** luai_numidiv(L, a, b) */
  function NumIDiv(f: Format, mode: Mode, a: nat, b: nat): nat
    requires Unit(f) > 0
  {
    Floor(f, Divide(f, mode, a, b))
  }

  // ----- Rounding near a number of the format

  predicate GapIgnores(mode: Mode, neg: bool, code: nat, r: nat, gap: nat) {
    match mode
    case NearestEven => 2 * r < gap || (2 * r == gap && code % 2 == 0)
    case TowardZero => r < gap
    case Upward => neg && r < gap
    case Downward => !neg && r < gap
  }

  lemma GapChoiceAbove(mode: Mode, neg: bool, c: nat, r: nat, a: nat, b: nat, v: nat)
    requires r > 0 && v == a + r && a < b
    ensures b <= v ==> !GapIgnores(mode, neg, c, r, b - a)
    ensures v < b ==> (GapIgnores(mode, neg, c, r, b - a) <==> !RoundsAway(mode, neg, v, a, b, c))
  {
  }

  /** Rounding a magnitude r above that of code c. */
  lemma RoundAboveScaled(p: nat, scale: nat, mode: Mode, neg: bool, c: nat, r: nat, floor: nat, gap: nat)
    requires p > 0 && scale > 0 && r > 0
    requires floor == Mag(p, c) * scale && gap == (Mag(p, c + 1) - Mag(p, c)) * scale
    ensures RoundUnbounded(p, scale, mode, neg, floor + r) >= c
    ensures RoundUnbounded(p, scale, mode, neg, floor + r) == c <==> GapIgnores(mode, neg, c, r, gap)
  {
    hide Mag, RoundUnbounded, RoundsAway, GapIgnores;
    MagScaledOrder(p, scale, c, c + 1);
    var b := Mag(p, c + 1) * scale;
    assert b == floor + gap by { DistributeMinus(Mag(p, c + 1), Mag(p, c), scale); }
    GapChoiceAbove(mode, neg, c, r, floor, b, floor + r);
    if b <= floor + r {
      var big := DownCode(p, (floor + r) / scale) + 1;
      DownCodeScaled(p, scale, floor + r);
      RoundBetween(p, scale, mode, neg, floor + r, c + 1, big);
    } else {
      RoundFrom(p, scale, mode, neg, floor + r, c);
    }
  }

  /** The code of the integer n. */
  function IntegerPattern(f: Format, n: nat): nat
    requires Unit(f) > 0
  {
    DownCode(f.P(), Times(n, Unit(f)))
  }

  lemma IntegerPatternIs(f: Format, n: nat)
    requires Roomy(f) && n <= f.P()
    ensures Unit(f) > 0 && Mag(f.P(), IntegerPattern(f, n)) == Times(n, Unit(f)) && IntegerPattern(f, n) < f.Inf()
    ensures IntegerPattern(f, n) == 0 <==> n == 0
  {
    hide Mag, DownCode, Pow2, Unit;
    UnitIsPower(f);
    var c := IntegerCode(f, n);
    ExactCode(f.P(), n * Unit(f), c);
    MagAtLeast(f.P(), c);
    TimesZeroOnly(n, Unit(f));
  }

  /** Distance between neighbouring numbers, in the numerator's units. */
  function Gap(f: Format, b: nat, c: nat): nat {
    MagOrder(f.P(), c, c + 1);
    Times(Mag(f.P(), c + 1) - Mag(f.P(), c), Size(f, b))
  }

  /** The quotient rounds to the integer at which its magnitude ends, or to the next one up: that integer is a finite
    * number of the format, and the distance to it is small enough for the rounding direction.
    */
  predicate Reaches(f: Format, mode: Mode, a: nat, b: nat, up: bool)
    requires Unit(f) > 0 && !IsZero(f, b)
  {
    var n, r, neg := Wholes(f, a, b), Rest(f, a, b), Negative(f, a) != Negative(f, b);
    var c := IntegerPattern(f, if up then n + 1 else n);
    && Mag(f.P(), c) == Times(if up then n + 1 else n, Unit(f)) && c < f.Inf()
    && if up then c > 0 && GapSwallows(mode, neg, c, Times(Size(f, b) - r, Unit(f)), Gap(f, b, c - 1))
       else r == 0 || GapIgnores(mode, neg, c, Times(r, Unit(f)), Gap(f, b, c))
  }

  /** The quotient rounds up to the integer above it: to the next one away from zero if it is positive,
    * to the next one towards zero if it is negative.
    */
  predicate Crosses(f: Format, mode: Mode, a: nat, b: nat)
    requires Unit(f) > 0 && !IsZero(f, b)
  {
    if Negative(f, a) == Negative(f, b) then Reaches(f, mode, a, b, true)
    else Rest(f, a, b) > 0 && Reaches(f, mode, a, b, false)
  }

  lemma NumeratorParts(x: nat, y: nat, n: nat, r: nat, u: nat)
    requires x == n * y + r && r < y && u > 0
    ensures Times(x, u) == Times(n, u) * y + Times(r, u)
    ensures Times(x, u) == Times(n + 1, u) * y - Times(y - r, u)
    ensures Times(y - r, u) > 0 && (Times(r, u) == 0 <==> r == 0)
  {
    TimesZeroOnly(y - r, u);
    TimesZeroOnly(r, u);
    Regroup(n, y, u, r);
    Regroup(n + 1, y, u, r - y);
  }

  lemma Regroup(n: int, y: int, u: int, r: int)
    ensures (n * y + r) * u == n * u * y + r * u
  {
    Swap(n, y, u);
  }

  lemma Swap(n: int, y: int, u: int)
    ensures n * y * u == n * u * y
  {
  }

  /** A quotient below 2^frac rounds to a number between the integers around it. */
  lemma QuotientRounds(f: Format, mode: Mode, neg: bool, n: nat, y: nat, r: nat, v: nat)
    requires Roomy(f) && n < f.P() && r < y && Unit(f) > 0
    requires v == Times(n, Unit(f)) * y + Times(r, Unit(f)) && v == Times(n + 1, Unit(f)) * y - Times(y - r, Unit(f))
    ensures IntegerPattern(f, n) <= RoundUnbounded(f.P(), y, mode, neg, v) <= IntegerPattern(f, n + 1)
  {
    hide Mag, DownCode, RoundUnbounded, Unit, Times, IntegerPattern;
    IntegerPatternIs(f, n);
    IntegerPatternIs(f, n + 1);
    RoundBetween(f.P(), y, mode, neg, v, IntegerPattern(f, n), IntegerPattern(f, n + 1));
  }

  lemma WholesParts(f: Format, a: nat, b: nat)
    requires !IsZero(f, b)
    ensures Size(f, a) == Wholes(f, a, b) * Size(f, b) + Rest(f, a, b) && Rest(f, a, b) < Size(f, b)
  {
    hide Size;
    SizeZero(f, b);
    DivModParts(Size(f, a), Size(f, b));
  }

  /** The quotient of two magnitudes, rounded with an unbounded exponent. */
  function QuotientCode(f: Format, mode: Mode, a: nat, b: nat): nat
    requires !IsZero(f, b)
  {
    SizeZero(f, b);
    RoundUnbounded(f.P(), Size(f, b), mode, Negative(f, a) != Negative(f, b), Numerator(f, a))
  }

  lemma ReachesCode(f: Format, mode: Mode, a: nat, b: nat, up: bool)
    requires Ordinary(f, a, b) && Unit(f) > 0
    ensures var n := if up then Wholes(f, a, b) + 1 else Wholes(f, a, b);
            var c := IntegerPattern(f, n);
            Reaches(f, mode, a, b, up) <==>
              Mag(f.P(), c) == Times(n, Unit(f)) && c < f.Inf() && QuotientCode(f, mode, a, b) == c
  {
    hide Mag, DownCode, RoundUnbounded, Unit, IntegerPattern, Size, Wholes, Rest, GapSwallows, GapIgnores, Pow2, Times;
    var n, r, y, u := Wholes(f, a, b), Rest(f, a, b), Size(f, b), Unit(f);
    var neg, v := Negative(f, a) != Negative(f, b), Numerator(f, a);
    SizeZero(f, b);
    WholesParts(f, a, b);
    NumeratorParts(Size(f, a), y, n, r, u);
    var c := IntegerPattern(f, if up then n + 1 else n);
    if Mag(f.P(), c) == Times(if up then n + 1 else n, u) {
      GapIs(f, b, c);
      if up {
        PositiveInteger(f.P(), c, n + 1, u);
        GapIs(f, b, c - 1);
        RoundBelowScaled(f.P(), y, mode, neg, c, Times(y - r, u), Mag(f.P(), c) * y, Gap(f, b, c - 1));
      } else if r > 0 {
        RoundAboveScaled(f.P(), y, mode, neg, c, Times(r, u), Mag(f.P(), c) * y, Gap(f, b, c));
      } else {
        RoundBetween(f.P(), y, mode, neg, v, c, c);
      }
    }
  }

  lemma GapIs(f: Format, b: nat, c: nat)
    ensures Gap(f, b, c) == (Mag(f.P(), c + 1) - Mag(f.P(), c)) * Size(f, b)
  {
    hide Mag, Size;
    MagOrder(f.P(), c, c + 1);
  }

  lemma PositiveInteger(p: nat, c: nat, n: nat, u: nat)
    requires p > 0 && Mag(p, c) == Times(n, u) && n > 0 && u > 0
    ensures c > 0
  {
    TimesZeroOnly(n, u);
    MagAtLeast(p, c);
  }

  /** Which integer the rounded quotient reaches. */
  lemma QuotientReaches(f: Format, mode: Mode, a: nat, b: nat)
    requires Ordinary(f, a, b) && Wholes(f, a, b) < f.P() && Unit(f) > 0
    ensures var n, code := Wholes(f, a, b), QuotientCode(f, mode, a, b);
            && IntegerPattern(f, n) <= code <= IntegerPattern(f, n + 1)
            && if Negative(f, a) == Negative(f, b) then code == IntegerPattern(f, n + 1) <==> Crosses(f, mode, a, b)
               else code == IntegerPattern(f, n) <==> Rest(f, a, b) == 0 || Crosses(f, mode, a, b)
  {
    hide Mag, DownCode, RoundUnbounded, Unit, IntegerPattern, Size, Wholes, Rest, Reaches, Pow2, Times;
    var n, r, y := Wholes(f, a, b), Rest(f, a, b), Size(f, b);
    var neg, v := Negative(f, a) != Negative(f, b), Numerator(f, a);
    SizeZero(f, b);
    WholesParts(f, a, b);
    NumeratorParts(Size(f, a), y, n, r, Unit(f));
    QuotientRounds(f, mode, neg, n, y, r, v);
    IntegerPatternIs(f, n);
    IntegerPatternIs(f, n + 1);
    ReachesCode(f, mode, a, b, !neg);
    if r == 0 {
      RoundBetween(f.P(), y, mode, neg, v, IntegerPattern(f, n), IntegerPattern(f, n));
    }
  }

  /** The floor of a number between the magnitudes n and n + 1. */
  lemma FloorBetween(u: nat, n: nat, x: nat)
    requires u > 0 && n * u <= x <= (n + 1) * u
    ensures x / u == if x == (n + 1) * u then n + 1 else n
    ensures (0 - x) / u == if x == n * u then 0 - n else 0 - n - 1
  {
    Distribute(n, u);
    ProductSigns(n, u);
    ProductSigns(n + 1, u);
    if x == (n + 1) * u { DivModUnique(x, u, n + 1, 0); } else { DivModUnique(x, u, n, x - n * u); }
    if x == n * u { DivModUnique(0 - x, u, 0 - n, 0); } else { DivModUnique(0 - x, u, 0 - n - 1, (n + 1) * u - x); }
  }

  /** floor of a number of magnitude code c that lies between n and n + 1. */
  lemma FloorIs(f: Format, neg: bool, c: nat, n: nat)
    requires Roomy(f) && n < f.P() && Unit(f) > 0 && IntegerPattern(f, n) <= c <= IntegerPattern(f, n + 1)
    ensures Holds(f, Floor(f, Pack(f, neg, c)),
                  (if neg then if c == IntegerPattern(f, n) then 0 - n else 0 - n - 1
                   else if c == IntegerPattern(f, n + 1) then n + 1 else n) * Unit(f))
    ensures Negative(f, Floor(f, Pack(f, neg, c))) == neg
  {
    hide Mag, DownCode, Unit, Pow2;
    var u, p := Unit(f), f.P();
    IntegerPatternIs(f, n);
    IntegerPatternIs(f, n + 1);
    PackParts(f, neg, c);
    MagOrder(p, IntegerPattern(f, n), c);
    MagOrder(p, c, IntegerPattern(f, n + 1));
    FloorBetween(u, n, Mag(p, c));
    ProductSigns(n, u);
    ProductSigns(n + 1, u);
    PackParts(f, neg, IntegerPattern(f, n));
    PackParts(f, neg, IntegerPattern(f, n + 1));
  }

  lemma DivideParts(f: Format, mode: Mode, a: nat, b: nat)
    requires Ordinary(f, a, b) && QuotientCode(f, mode, a, b) < f.Inf()
    ensures Divide(f, mode, a, b) == Pack(f, Negative(f, a) != Negative(f, b), QuotientCode(f, mode, a, b))
  {
    hide Mag, RoundUnbounded, Numerator, Pow2;
    SizeZero(f, b);
  }

  /** luai_numidiv below 2^frac: the exact floor, or one more exactly when the quotient crosses that integer. */
  lemma IDivIsFloor(f: Format, mode: Mode, a: nat, b: nat)
    requires Ordinary(f, a, b) && Wholes(f, a, b) < f.P()
    ensures Unit(f) > 0 && Value(f, b) != 0
    ensures Holds(f, NumIDiv(f, mode, a, b),
                  (FloorQuotient(Value(f, a), Value(f, b)) + if Crosses(f, mode, a, b) then 1 else 0) * Unit(f))
  {
    hide Mag, DownCode, Unit, IntegerPattern, Size, Wholes, Rest, Pow2, Crosses, QuotientCode, FloorQuotient, Value;
    hide Floor, Divide, Holds;
    UnitIsPower(f);
    var n, neg, code := Wholes(f, a, b), Negative(f, a) != Negative(f, b), QuotientCode(f, mode, a, b);
    QuotientReaches(f, mode, a, b);
    IntegerPatternIs(f, n);
    IntegerPatternIs(f, n + 1);
    DivideParts(f, mode, a, b);
    ExactParts(f, a, b);
    NextInteger(f, n);
    FloorIs(f, neg, code, n);
    if neg && Rest(f, a, b) == 0 { NoRestNoCrossing(f, mode, a, b); }
  }

  lemma NextInteger(f: Format, n: nat)
    requires Roomy(f) && n < f.P()
    ensures Unit(f) > 0 && IntegerPattern(f, n) < IntegerPattern(f, n + 1)
  {
    hide Mag, DownCode, Unit, IntegerPattern, Pow2;
    IntegerPatternIs(f, n);
    IntegerPatternIs(f, n + 1);
    Distribute(n, Unit(f));
    MagOrder(f.P(), IntegerPattern(f, n), IntegerPattern(f, n + 1));
  }

  lemma NoRestNoCrossing(f: Format, mode: Mode, a: nat, b: nat)
    requires Unit(f) > 0 && !IsZero(f, b) && Negative(f, a) != Negative(f, b) && Rest(f, a, b) == 0
    ensures !Crosses(f, mode, a, b)
  {
  }

  /** The least negative number divided by 2.0 underflows to -0: luai_numidiv gives zero, where the floor is -1. */
  lemma CrossesExample(f: Format)
    requires Roomy(f)
    ensures var a, b := f.SignBit() + 1, PowerPattern(f, 1);
            && Ordinary(f, a, b) && Unit(f) > 0 && Value(f, b) != 0 && Crosses(f, NearestEven, a, b)
            && FloorQuotient(Value(f, a), Value(f, b)) == -1 && Holds(f, NumIDiv(f, NearestEven, a, b), 0)
  {
    hide Mag, DownCode, Unit, Pow2, Floor, Divide, NumIDiv, Value, FloorQuotient, PowerPattern, Size, Roomy;
    var a, b := f.SignBit() + 1, PowerPattern(f, 1);
    ExampleSizes(f);
    SmallMod(Size(f, a), Size(f, b));
    assert Wholes(f, a, b) == 0 && Rest(f, a, b) == 1;
    IntegerPatternIs(f, 0);
    ExactParts(f, a, b);
    IDivIsFloor(f, NearestEven, a, b);
  }

  lemma ExampleSizes(f: Format)
    requires Roomy(f)
    ensures var a, b := f.SignBit() + 1, PowerPattern(f, 1);
            && Ordinary(f, a, b) && Unit(f) > 0 && Negative(f, a) && !Negative(f, b)
            && Size(f, a) == Mag(f.P(), 1) - Mag(f.P(), 0) == 1 && Size(f, b) == 2 * Unit(f)
  {
    UnitIsPower(f);
    BiasRoom(f);
    PowerMag(f, 1);
    PowStep(f.frac + f.Bias() - 1);
    MulOrder(f.Bias() + 1, 2 * f.Bias(), f.P());
    MulOrder(1, f.Bias() + 1, f.P());
    Distribute(2 * f.Bias(), f.P());
  }

  /** From 2^frac on the rounded quotient is an integer already, or infinite, and floor returns it. */
  lemma IDivBig(f: Format, mode: Mode, a: nat, b: nat)
    requires Ordinary(f, a, b) && Wholes(f, a, b) >= f.P()
    ensures Unit(f) > 0 && NumIDiv(f, mode, a, b) == Divide(f, mode, a, b)
  {
    hide Mag, DownCode, Unit, Size, Wholes, Rest, Pow2, RoundUnbounded, RoundCode, Numerator;
    UnitIsPower(f);
    SizeZero(f, b);
    WholesParts(f, a, b);
    var p, u, y, n := f.P(), Unit(f), Size(f, b), Wholes(f, a, b);
    var neg := Negative(f, a) != Negative(f, b);
    var c := RoundCode(f, y, mode, neg, Numerator(f, a));
    BigQuotient(f, mode, neg, a, y, n, Rest(f, a, b));
    RoundCodeRange(f, y, mode, neg, Numerator(f, a));
    FloorOfInteger(f, neg, c);
  }

  lemma FloorOfInteger(f: Format, neg: bool, c: nat)
    requires Roomy(f) && PowerPattern(f, f.frac) <= c <= f.Inf()
    ensures Unit(f) > 0 && Floor(f, Pack(f, neg, c)) == Pack(f, neg, c)
  {
    hide Mag, DownCode, Unit, Pow2;
    UnitIsPower(f);
    PackParts(f, neg, c);
    if c < f.Inf() {
      var n := BigIsInteger(f, c);
      ProductSigns(n, Unit(f));
      MultipleMod(n, Unit(f));
      MultipleMod(-(n as int), Unit(f));
      ExactCode(f.P(), Mag(f.P(), c), c);
    }
  }

  lemma BigQuotient(f: Format, mode: Mode, neg: bool, a: nat, y: nat, n: nat, r: nat)
    requires Roomy(f) && Unit(f) > 0 && y > 0 && Size(f, a) == n * y + r && r < y && n >= f.P()
    ensures RoundCode(f, y, mode, neg, Numerator(f, a)) >= PowerPattern(f, f.frac)
  {
    hide Mag, DownCode, Unit, Pow2, RoundUnbounded, Size, PowerPattern, Times;
    var p, v, c := f.P(), Numerator(f, a), PowerPattern(f, f.frac);
    IntegerBinade(f, 0);
    NumeratorParts(Size(f, a), y, n, r, Unit(f));
    assert Mag(p, c) * y <= v by { TimesOrder(p, n, Unit(f), y); }
    var big := DownCode(p, v / y) + 1;
    DownCodeScaled(p, y, v);
    RoundBetween(p, y, mode, neg, v, c, big);
    IntegerBinadeFinite(f);
  }

  lemma TimesOrder(p: nat, n: nat, u: nat, y: nat)
    requires p <= n
    ensures p * u * y <= Times(n, u) * y
  {
    MulOrder(p, n, u);
    MulOrder(p * u, n * u, y);
  }

  lemma IntegerBinadeFinite(f: Format)
    requires Roomy(f)
    ensures PowerPattern(f, f.frac) + 1 < f.Inf()
  {
    hide Pow2;
    BiasRoom(f);
    MulOrder(f.Bias() + f.frac + 1, 2 * f.Bias(), f.P());
    Distribute(f.Bias() + f.frac, f.P());
    Distribute(2 * f.Bias(), f.P());
  }

  // ----- When the result is the exact floor

  lemma DivideIs(f: Format, mode: Mode, a: nat, b: nat)
    requires Ordinary(f, a, b)
    ensures Size(f, b) > 0
    ensures var neg := Negative(f, a) != Negative(f, b);
            Divide(f, mode, a, b) == Pack(f, neg, RoundCode(f, Size(f, b), mode, neg, Numerator(f, a)))
  {
    hide Mag, RoundCode, Numerator, Pow2;
    SizeZero(f, b);
  }

  lemma PackHolds(f: Format, neg: bool, c: nat, v: nat)
    requires c <= f.Inf()
    ensures Holds(f, Pack(f, neg, c), Signed(neg, v)) <==> c < f.Inf() && Mag(f.P(), c) == v
  {
    hide Mag, Pow2;
    PackParts(f, neg, c);
  }

  /** An overflow that rounds to the largest finite number does so from above an integer the quotient exceeds. */
  lemma OverflowBelow(f: Format, mode: Mode, neg: bool, y: nat, v: nat, n: nat)
    requires Roomy(f) && Unit(f) > 0 && y > 0 && v < Times(n + 1, Unit(f)) * y
    requires RoundUnbounded(f.P(), y, mode, neg, v) >= f.Inf() && RoundCode(f, y, mode, neg, v) < f.Inf()
    ensures RoundCode(f, y, mode, neg, v) == f.Inf() - 1 && Mag(f.P(), f.Inf() - 1) < Times(n, Unit(f))
  {
    hide Mag, RoundUnbounded, DownCode, Unit, Pow2, PowerPattern;
    var p, r := f.P(), RoundUnbounded(f.P(), y, mode, neg, v);
    IntegerBinadeFinite(f);
    var m := BigIsInteger(f, f.Inf());
    RoundingIsCorrect(p, y, mode, neg, v, r);
    DirectedDown(p, y, mode, neg, v);
    MagScaledOrder(p, y, f.Inf(), r);
    StrictFactor(m * Unit(f), Times(n + 1, Unit(f)), y);
    StrictFactor(m, n + 1, Unit(f));
    MulOrder(m, n, Unit(f));
    MagOrder(p, f.Inf() - 1, f.Inf());
  }

  lemma StrictFactor(a: int, b: int, y: nat)
    requires a * y < b * y
    ensures a < b
  {
    if b <= a { MulOrder(b, a, y); }
  }

  /** Rounding toward zero does not exceed the exact magnitude. */
  lemma DirectedDown(p: nat, y: nat, mode: Mode, neg: bool, v: nat)
    requires p > 0 && y > 0
    ensures mode != NearestEven && !TowardLarger(mode, neg) ==> Mag(p, RoundUnbounded(p, y, mode, neg, v)) * y <= v
  {
    hide Mag, DownCode;
    DownCodeScaled(p, y, v);
  }

  /** Whether the rounded quotient, of whatever size, is one of the two integers around the exact one. */
  lemma QuotientIs(f: Format, mode: Mode, a: nat, b: nat, up: bool)
    requires Ordinary(f, a, b) && Unit(f) > 0
    ensures var n, neg := if up then Wholes(f, a, b) + 1 else Wholes(f, a, b), Negative(f, a) != Negative(f, b);
            Holds(f, Divide(f, mode, a, b), Signed(neg, Times(n, Unit(f)))) <==> Reaches(f, mode, a, b, up)
  {
    hide Mag, RoundUnbounded, DownCode, Unit, Pow2, Size, Wholes, Rest, Reaches, Times, Divide, Holds, PowerPattern;
    var w, y, u, v := Wholes(f, a, b), Size(f, b), Unit(f), Numerator(f, a);
    var n, neg := if up then w + 1 else w, Negative(f, a) != Negative(f, b);
    DivideIs(f, mode, a, b);
    WholesParts(f, a, b);
    NumeratorParts(Size(f, a), y, w, Rest(f, a, b), u);
    var c, r := RoundCode(f, y, mode, neg, v), RoundUnbounded(f.P(), y, mode, neg, v);
    RoundCodeRange(f, y, mode, neg, v);
    PackHolds(f, neg, c, Times(n, u));
    ReachesCode(f, mode, a, b, up);
    if c < f.Inf() && Mag(f.P(), c) == Times(n, u) {
      ExactCode(f.P(), Times(n, u), c);
      if r >= f.Inf() {
        OverflowBelow(f, mode, neg, y, v, w);
        TimesGrows(w, u);
        assert false;
      }
    }
  }

  lemma TimesGrows(n: nat, u: nat)
    ensures Times(n, u) <= Times(n + 1, u)
  {
    Distribute(n, u);
  }

  /** The condition, on the operands, for the result to be the exact floor. */
  predicate FloorReached(f: Format, mode: Mode, a: nat, b: nat)
    requires Unit(f) > 0 && !IsZero(f, b)
  {
    if Wholes(f, a, b) < f.P() then !Crosses(f, mode, a, b)
    else Reaches(f, mode, a, b, NeedsCorrection(f, a, b))
  }

  /** The condition for it to be one more, of operands for which luai_nummod needs a correction. */
  predicate NextReached(f: Format, mode: Mode, a: nat, b: nat)
    requires Unit(f) > 0 && !IsZero(f, b)
  {
    if Wholes(f, a, b) < f.P() then Crosses(f, mode, a, b) else Reaches(f, mode, a, b, false)
  }

  /** luai_numidiv gives the integer i. */
  predicate IDivIs(f: Format, mode: Mode, a: nat, b: nat, i: int)
    requires Unit(f) > 0
  {
    Holds(f, NumIDiv(f, mode, a, b), i * Unit(f))
  }

  lemma SignedTimes(neg: bool, n: nat, u: nat)
    ensures Signed(neg, Times(n, u)) == (if neg then 0 - n else n) * u
  {
    ProductSigns(n, u);
  }

  lemma BigIDiv(f: Format, mode: Mode, a: nat, b: nat)
    requires Ordinary(f, a, b) && Wholes(f, a, b) >= f.P()
    ensures Unit(f) > 0 && Value(f, b) != 0
    ensures var k := FloorQuotient(Value(f, a), Value(f, b));
            && (IDivIs(f, mode, a, b, k) <==> Reaches(f, mode, a, b, NeedsCorrection(f, a, b)))
            && (NeedsCorrection(f, a, b) ==> (IDivIs(f, mode, a, b, k + 1) <==> Reaches(f, mode, a, b, false)))
  {
    hide Unit, Pow2, Size, Wholes, Rest, Reaches, Times, Divide, Holds, NumIDiv, FloorQuotient, Value, Signed;
    UnitIsPower(f);
    var n, neg, up := Wholes(f, a, b), Negative(f, a) != Negative(f, b), NeedsCorrection(f, a, b);
    ExactParts(f, a, b);
    IDivBig(f, mode, a, b);
    QuotientIs(f, mode, a, b, up);
    QuotientIs(f, mode, a, b, false);
    SignedTimes(neg, n, Unit(f));
    SignedTimes(neg, n + 1, Unit(f));
  }

  /** The sign of the result is that of the quotient, also where it is zero. */
  lemma IDivSign(f: Format, mode: Mode, a: nat, b: nat)
    requires Ordinary(f, a, b)
    ensures Unit(f) > 0 && Negative(f, NumIDiv(f, mode, a, b)) == (Negative(f, a) != Negative(f, b))
  {
    hide Mag, Unit, Pow2, Size, RoundUnbounded, RoundCode, Numerator, Wholes, IntegerPattern, Divide, Floor;
    UnitIsPower(f);
    var neg := Negative(f, a) != Negative(f, b);
    DivideIs(f, mode, a, b);
    var c := RoundCode(f, Size(f, b), mode, neg, Numerator(f, a));
    RoundCodeRange(f, Size(f, b), mode, neg, Numerator(f, a));
    if Wholes(f, a, b) >= f.P() {
      IDivBig(f, mode, a, b);
      PackParts(f, neg, c);
    } else {
      QuotientReaches(f, mode, a, b);
      IntegerPatternIs(f, Wholes(f, a, b) + 1);
      DivideParts(f, mode, a, b);
      FloorIs(f, neg, QuotientCode(f, mode, a, b), Wholes(f, a, b));
    }
  }

  /** For operands of any size: luai_numidiv gives the exact floor, or one more, exactly under those conditions. */
  lemma IDivExact(f: Format, mode: Mode, a: nat, b: nat)
    requires Ordinary(f, a, b)
    ensures Unit(f) > 0 && Value(f, b) != 0
    ensures var k := FloorQuotient(Value(f, a), Value(f, b));
            && (IDivIs(f, mode, a, b, k) <==> FloorReached(f, mode, a, b))
            && (NeedsCorrection(f, a, b) ==> (IDivIs(f, mode, a, b, k + 1) <==> NextReached(f, mode, a, b)))
    ensures Negative(f, NumIDiv(f, mode, a, b)) == (Negative(f, a) != Negative(f, b))
  {
    hide Unit, Pow2, Size, Wholes, Rest, Reaches, NumIDiv, FloorQuotient, Value, Crosses, NeedsCorrection;
    IDivSign(f, mode, a, b);
    if Wholes(f, a, b) < f.P() {
      IDivIsFloor(f, mode, a, b);
      var k, e := FloorQuotient(Value(f, a), Value(f, b)), if Crosses(f, mode, a, b) then 1 else 0;
      OnlyMultiple(f, NumIDiv(f, mode, a, b), k + e, k);
      OnlyMultiple(f, NumIDiv(f, mode, a, b), k + e, k + 1);
    } else {
      BigIDiv(f, mode, a, b);
    }
  }

  lemma OnlyMultiple(f: Format, q: nat, i: int, j: int)
    requires Unit(f) > 0 && Holds(f, q, i * Unit(f))
    ensures Holds(f, q, j * Unit(f)) <==> i == j
  {
    hide Unit, Value;
    if i * Unit(f) == j * Unit(f) { SameMultiple(i, j, Unit(f)); }
  }

  /** The quotient rounds to the number after the largest finite one, or beyond. */
  predicate Overflows(f: Format, mode: Mode, a: nat, b: nat)
    requires !IsZero(f, b) && f.Inf() > 0
  {
    var top := Times(Mag(f.P(), f.Inf()), Size(f, b));
    top <= Numerator(f, a) ||
      GapSwallows(mode, Negative(f, a) != Negative(f, b), f.Inf(), top - Numerator(f, a), Gap(f, b, f.Inf() - 1))
  }

  lemma OverflowCode(f: Format, mode: Mode, a: nat, b: nat)
    requires Ordinary(f, a, b)
    ensures f.Inf() > 0 && (QuotientCode(f, mode, a, b) >= f.Inf() <==> Overflows(f, mode, a, b))
  {
    hide Mag, RoundUnbounded, DownCode, Pow2, Size, GapSwallows, PowerPattern;
    IntegerBinadeFinite(f);
    SizeZero(f, b);
    var p, y, v, neg := f.P(), Size(f, b), Numerator(f, a), Negative(f, a) != Negative(f, b);
    var top := Times(Mag(p, f.Inf()), y);
    GapIs(f, b, f.Inf() - 1);
    if top <= v {
      var big := DownCode(p, v / y) + 1;
      DownCodeScaled(p, y, v);
      RoundBetween(p, y, mode, neg, v, f.Inf(), big);
    } else {
      RoundBelowScaled(p, y, mode, neg, f.Inf(), top - v, top, Gap(f, b, f.Inf() - 1));
    }
  }

  /** On overflow luai_numidiv gives an infinity or the largest finite number, which is never the floor. */
  lemma IDivOverflow(f: Format, mode: Mode, a: nat, b: nat)
    requires Ordinary(f, a, b) && f.Inf() > 0 && Overflows(f, mode, a, b)
    ensures Unit(f) > 0 && !FloorReached(f, mode, a, b)
    ensures var neg := Negative(f, a) != Negative(f, b);
            var c := if mode == NearestEven || TowardLarger(mode, neg) then f.Inf() else f.Inf() - 1;
            NumIDiv(f, mode, a, b) == Pack(f, neg, c)
  {
    hide Mag, RoundUnbounded, DownCode, Pow2, Size, Overflows, Unit, Wholes, Rest;
    hide IntegerPattern, Reaches, Crosses, NumIDiv;
    UnitIsPower(f);
    OverflowCode(f, mode, a, b);
    if Wholes(f, a, b) < f.P() {
      QuotientReaches(f, mode, a, b);
      IntegerPatternIs(f, Wholes(f, a, b) + 1);
      assert false;
    } else {
      ReachesCode(f, mode, a, b, NeedsCorrection(f, a, b));
      IDivBig(f, mode, a, b);
      DivideIs(f, mode, a, b);
    }
  }

  /** Operands that are not ordinary: NaN, a signed infinity, or a signed zero where the divisor is infinite. For a
    * divisor of the other sign that zero is -0, while luai_nummod gives the infinite divisor.
    */
  lemma IDivSpecial(f: Format, mode: Mode, a: nat, b: nat)
    requires Roomy(f) && IsPattern(f, a) && IsPattern(f, b)
    ensures Unit(f) > 0
    ensures var q, neg := NumIDiv(f, mode, a, b), Negative(f, a) != Negative(f, b);
            if IsNaN(f, a) || IsNaN(f, b) || (!IsFinite(f, a) && !IsFinite(f, b)) || (IsZero(f, a) && IsZero(f, b))
            then IsNaN(f, q)
            else if !IsFinite(f, a) || IsZero(f, b) then q == Pack(f, neg, f.Inf())
            else !IsFinite(f, b) ==> q == Pack(f, neg, 0)
    ensures IsFinite(f, a) && Code(f, b) == f.Inf() && !IsZero(f, a) && Negative(f, a) != Negative(f, b) ==>
              NumIDiv(f, mode, a, b) == Pack(f, true, 0) && FloatMod(f, mode, a, b) == b
  {
    hide Mag, Pow2, RoundCode, FloatMod, SomeNaN, Unit, Numerator, Size;
    UnitIsPower(f);
    NaNParts(f);
    PackParts(f, Negative(f, a) != Negative(f, b), f.Inf());
    FloorOfZero(f, Negative(f, a) != Negative(f, b));
    if IsFinite(f, a) && Code(f, b) == f.Inf() { ModInfinite(f, mode, a, b); }
  }

  lemma FloorOfZero(f: Format, neg: bool)
    requires Roomy(f)
    ensures Unit(f) > 0 && Floor(f, Pack(f, neg, 0)) == Pack(f, neg, 0)
  {
    hide Pow2, Unit;
    UnitIsPower(f);
    IntegerBinadeFinite(f);
    PackParts(f, neg, 0);
    ZeroCodes(f.P());
    hide Mag, DownCode;
    ZeroFloor(Unit(f));
  }

  lemma ZeroCodes(p: nat)
    requires p > 0
    ensures Mag(p, 0) == 0 && DownCode(p, 0) == 0
  {
  }

  lemma ZeroFloor(u: nat)
    requires u > 0
    ensures 0 / u == 0 && Distance(0, 0 / u) * u == 0
  {
    MultipleMod(0, u);
  }

  /** A quotient of at least 2^frac that does not overflow is returned correctly rounded: of all the numbers c of the
    * precision none is closer to |a| / |b| on the side the direction asks for.
    */
  lemma IDivNearest(f: Format, mode: Mode, a: nat, b: nat, c: nat)
    requires Ordinary(f, a, b) && Wholes(f, a, b) >= f.P() && f.Inf() > 0 && !Overflows(f, mode, a, b)
    ensures Unit(f) > 0 && IsFinite(f, NumIDiv(f, mode, a, b))
    ensures var r, neg := Code(f, NumIDiv(f, mode, a, b)), Negative(f, a) != Negative(f, b);
            var v, x, y := Size(f, a) * Unit(f), Mag(f.P(), c) * Size(f, b), Mag(f.P(), r) * Size(f, b);
            if mode == NearestEven then
              Distance(v, y) <= Distance(v, x) && (Distance(v, y) == Distance(v, x) && c != r ==> r % 2 == 0)
            else if TowardLarger(mode, neg) then v <= y && (v <= x ==> r <= c)
            else y <= v && (x <= v ==> c <= r)
  {
    hide Mag, RoundUnbounded, DownCode, Pow2, Size, Overflows, Unit, Wholes, Rest, NumIDiv;
    OverflowCode(f, mode, a, b);
    IDivBig(f, mode, a, b);
    DivideParts(f, mode, a, b);
    PackParts(f, Negative(f, a) != Negative(f, b), QuotientCode(f, mode, a, b));
    SizeZero(f, b);
    RoundingIsCorrect(f.P(), Size(f, b), mode, Negative(f, a) != Negative(f, b), Numerator(f, a), c);
  }

  // ----- a == idiv * b + mod

  /** The correction runs and the sum it forms, the exact floor modulus, is not a number of the format. */
  predicate CorrectedInexactly(f: Format, mode: Mode, a: nat, b: nat)
    requires !IsZero(f, b)
  {
    && NeedsCorrection(f, a, b) && !Skipped(f, mode, a, b)
    && var sum := Size(f, b) - Rest(f, a, b);
    && Mag(f.P(), DownCode(f.P(), sum)) != sum
  }

  /** A sum that is corrected keeps its value exactly when it is a number of the format. */
  lemma CorrectionLoses(f: Format, mode: Mode, a: nat, b: nat)
    requires Ordinary(f, a, b) && NeedsCorrection(f, a, b)
    ensures Value(f, b) != 0
    ensures var sum := Size(f, b) - Rest(f, a, b);
            Value(f, Add(f, mode, FMod(f, a, b), b)) == FloorModulus(Value(f, a), Value(f, b)) <==>
              Mag(f.P(), DownCode(f.P(), sum)) == sum
  {
    hide Mag, FMod, RoundCode, Rest, FloorModulus, Add, Pow2, Roomy, DownCode, GapSwallows;
    var sum, neg := Size(f, b) - Rest(f, a, b), Negative(f, b);
    ExactParts(f, a, b);
    CorrectedSum(f, mode, a, b);
    RoundBelow(f, mode, neg, Code(f, b), Rest(f, a, b));
    RoundsToItself(f, mode, neg, sum, Code(f, b));
    PackHolds(f, neg, RoundCode(f, 1, mode, neg, sum), sum);
    PackParts(f, neg, RoundCode(f, 1, mode, neg, sum));
  }

  lemma RoundsToItself(f: Format, mode: Mode, neg: bool, v: nat, top: nat)
    requires v < Mag(f.P(), top) && top < f.Inf()
    ensures Mag(f.P(), RoundCode(f, 1, mode, neg, v)) == v <==> Mag(f.P(), DownCode(f.P(), v)) == v
  {
    hide Mag, RoundCode, DownCode, Pow2;
    var c := DownCode(f.P(), v);
    if Mag(f.P(), c) == v {
      MagOrder(f.P(), c, top);
      TimesOne(v);
      RoundCodeBetween(f, 1, mode, neg, v, c, c);
    } else if Mag(f.P(), RoundCode(f, 1, mode, neg, v)) == v {
      ExactCode(f.P(), v, RoundCode(f, 1, mode, neg, v));
    }
  }

  /** Quotient and modulus make up a, in exact arithmetic; an infinite quotient makes up nothing. */
  ghost predicate MakesUp(f: Format, mode: Mode, a: nat, b: nat)
    requires Unit(f) > 0
  {
    exists i :: IDivIs(f, mode, a, b, i) && Value(f, a) == i * Value(f, b) + Value(f, FloatMod(f, mode, a, b))
  }

  lemma LawAlgebra(x: int, y: int, q: int, m: int, i: int, m': int)
    requires y != 0 && InRange(m, y) && x == q * y + m
    ensures m' == m ==> (x == i * y + m' <==> i == q)
    ensures m' == m - y ==> (x == i * y + m' <==> i == q + 1)
    ensures m' != m && m != 0 && UpTo(m', y) ==> x != i * y + m'
  {
    var e := i - q;
    assert i * y == q * y + e * y;
    if x == i * y + m' || i == q {
      assert e * y == m - m' || e == 0;
    }
    SmallOrOne(e, y);
  }

  lemma SmallOrOne(e: int, y: int)
    requires y != 0
    ensures e * y == 0 <==> e == 0
    ensures e * y == y <==> e == 1
    ensures y > 0 && -y < e * y < y ==> e == 0
    ensures y < 0 && y < e * y < -y ==> e == 0
  {
    if y > 0 {
      if e >= 2 { MulOrder(2, e, y); } else if e <= -1 { MulOrder(e, -1, y); }
    } else {
      ProductSigns(e, y);
      if e >= 2 { MulOrder(2, e, -y); } else if e <= -1 { MulOrder(e, -1, -y); }
    }
  }

  /** The floating-point modulus is the exact one, is less by the divisor, or was corrected inexactly. */
  lemma ModCases(f: Format, mode: Mode, a: nat, b: nat)
    requires Ordinary(f, a, b)
    ensures Unit(f) > 0 && Value(f, b) != 0
    ensures var m, exact := Value(f, FloatMod(f, mode, a, b)), FloorModulus(Value(f, a), Value(f, b));
            if Skipped(f, mode, a, b) then m == exact - Value(f, b)
            else if CorrectedInexactly(f, mode, a, b) then m != exact && exact != 0 && UpTo(m, Value(f, b))
            else m == exact
  {
    hide Mag, DownCode, Unit, Size, Rest, Pow2, Value, FMod, Add, FloorModulus, InRange, UpTo, IsRoundingOf, Vanishes;
    hide Less, Multiply, Swallowed;
    CorrectionRuns(f, mode, a, b);
    WithoutCorrection(f, mode, a, b);
    RangeOfExact(f, a, b);
    if NeedsCorrection(f, a, b) {
      WithCorrection(f, mode, a, b);
      CorrectionLoses(f, mode, a, b);
    }
  }

  /** Quotient and modulus make up a, for operands of any size, exactly when no correction was inexact and the quotient
    * is the floor, or one more where the correction was skipped.
    */
  lemma QuotientAndModulus(f: Format, mode: Mode, a: nat, b: nat)
    requires Ordinary(f, a, b)
    ensures Unit(f) > 0
    ensures MakesUp(f, mode, a, b) <==>
              && !CorrectedInexactly(f, mode, a, b)
              && if Skipped(f, mode, a, b) then NextReached(f, mode, a, b) else FloorReached(f, mode, a, b)
  {
    hide Unit, Value, FloatMod, FloorQuotient, FloorModulus, InRange, UpTo, IDivIs, FloorReached, NextReached;
    hide CorrectedInexactly, Skipped, NeedsCorrection;
    UnitIsPower(f);
    var x, y, m := Value(f, a), Value(f, b), Value(f, FloatMod(f, mode, a, b));
    ModCases(f, mode, a, b);
    IDivExact(f, mode, a, b);
    RangeOfExact(f, a, b);
    var q, exact := FloorQuotient(x, y), FloorModulus(x, y);
    FloorDetermined(x, y, q, exact);
    forall i { LawAlgebra(x, y, q, exact, i, m); }
    CorrectedOrSkipped(f, mode, a, b);
  }

  lemma CorrectedOrSkipped(f: Format, mode: Mode, a: nat, b: nat)
    requires !IsZero(f, b)
    ensures Skipped(f, mode, a, b) ==> NeedsCorrection(f, a, b) && !CorrectedInexactly(f, mode, a, b)
  {
  }

  lemma SameMultiple(i: int, j: int, u: nat)
    requires u > 0 && i * u == j * u
    ensures i == j
  {
    MultipleMod(i, u);
    MultipleMod(j, u);
  }

  lemma RangeOfExact(f: Format, a: nat, b: nat)
    requires !IsZero(f, b)
    ensures Value(f, b) != 0 && InRange(FloorModulus(Value(f, a), Value(f, b)), Value(f, b))
    ensures NeedsCorrection(f, a, b) ==> FloorModulus(Value(f, a), Value(f, b)) != 0
  {
    ExactParts(f, a, b);
  }

  // ----- Doubles for which it fails

  /** The correction is skipped and the quotient, -0.5, is floored to -1: -1 * 2e-200 + -1e-200 is not -1e-200. */
  lemma LawFailsSkipped()
    ensures Unit(BINARY64) > 0 && !MakesUp(BINARY64, NearestEven, MINUS1E200, TWO1E200)
  {
    hide Mag, Unit, Pow2, DownCode, Skipped, FloorReached, CorrectedInexactly, Rest, Size, MakesUp, IntegerPattern;
    var f, a, b := BINARY64, MINUS1E200, TWO1E200;
    DoubleConstants();
    PartsOfTiny();
    SizesOfTiny();
    SkippedExample();
    SmallNumerator(f, a, b);
    Pow2Mono(411, f.frac + f.Bias() - 1);
    NotNearZero(f, a, b);
    QuotientAndModulus(f, NearestEven, a, b);
  }

  /** A negative quotient of a small divisor does not round to zero. */
  lemma NotNearZero(f: Format, a: nat, b: nat)
    requires Ordinary(f, a, b) && 0 < Size(f, a) < Size(f, b) < Pow2(f.frac + f.Bias() - 1)
    requires Negative(f, a) != Negative(f, b)
    ensures Unit(f) > 0 && !NextReached(f, NearestEven, a, b)
  {
    hide Mag, Unit, Pow2, DownCode, Size, IntegerPattern, Rest;
    UnitIsPower(f);
    SmallNumerator(f, a, b);
    SmallMod(Size(f, a), Size(f, b));
    assert Wholes(f, a, b) == 0;
    IntegerPatternIs(f, 0);
    SubnormalGap(f, b);
    MulOrder(1, Size(f, a), Unit(f));
  }

  lemma SubnormalGap(f: Format, b: nat)
    ensures Gap(f, b, 0) == Size(f, b)
  {
    assert Mag(f.P(), 0) == 0 && Mag(f.P(), 1) == 1;
  }

  /** The correction is swallowed: no multiple of 1.0 and 1.0 make up -1e-20. */
  lemma LawFailsSwallowed()
    ensures Unit(BINARY64) > 0 && !MakesUp(BINARY64, NearestEven, MINUS1E20, ONE)
  {
    hide Mag, Unit, Pow2, Size, FloatMod, Ordinary, Swallowed, IDivIs;
    var f, a, b := BINARY64, MINUS1E20, ONE;
    PartsOfTiny();
    SizesOfTiny();
    SwallowedExample();
    ValueIsSigned(f, a);
    ValueIsSigned(f, b);
    hide Value;
    forall i ensures Value(f, a) != i * Value(f, b) + Value(f, b) {
      Distribute(i, Value(f, b));
      NoMultiple(i + 1, Size(f, b), Size(f, a));
    }
  }

  lemma NoMultiple(i: int, y: nat, x: nat)
    requires 0 < x < y
    ensures i * y != 0 - x
  {
    if i >= 0 { MulOrder(0, i, y); } else { MulOrder(i, -1, y); }
  }

  // 2^56 and 3.0
  const TWO56: nat := 0x4370000000000000
  const THREE: nat := 0x4008000000000000

  /** The integer part of 2^56 / 3. */
  const THIRD: nat := 24019198012642645

  lemma PowersForThird()
    ensures Pow2(56) == 0x100000000000000 && Pow2(54) == 0x40000000000000 && Pow2(51) == 0x8000000000000
    ensures Pow2(1) == 2 && Pow2(2) == 4
  {
    assert Pow2(9) == 0x200;
    Pow2Add(9, 9);
    Pow2Add(9, 18);
    Pow2Add(27, 27);
    PowStep(54);
    PowStep(55);
    Pow2Add(51, 3);
  }

  lemma PatternsForThird()
    ensures var f := BINARY64;
            && f.frac == 52 && f.Bias() == 1023 && f.P() == 0x10000000000000 && Roomy(f)
            && Unit(f) > 0 && Unit(f) == Pow2(1074)
            && PowerPattern(f, 56) == TWO56 && PowerPattern(f, 1) + 0x8000000000000 == THREE
            && Ordinary(f, TWO56, THREE) && !Negative(f, TWO56) && !Negative(f, THREE)
  {
    DoubleConstants();
    PartsOfTiny();
    UnitIsPower(BINARY64);
    hide Unit, Pow2;
  }

  lemma SizesForThird(u: nat)
    requires u == Unit(BINARY64)
    ensures Size(BINARY64, TWO56) == 0x100000000000000 * u && Size(BINARY64, THREE) == 3 * u && u > 0
  {
    hide Mag, Pow2, Unit, PowerPattern;
    var f := BINARY64;
    PatternsForThird();
    PowersForThird();
    BinadeValue(f, 56, 0);
    BinadeValue(f, 1, 0x8000000000000);
    Pow2Add(51, 1023);
  }

  /** The integer part of the quotient lies between two numbers of the format, four apart. */
  lemma ThirdIsNoNumber(u: nat)
    requires u == Unit(BINARY64)
    ensures Mag(BINARY64.P(), DownCode(BINARY64.P(), Times(THIRD, u))) != Times(THIRD, u)
  {
    hide Mag, DownCode, Pow2, Unit, PowerPattern;
    var f, j := BINARY64, 1501199875790165;
    PatternsForThird();
    PowersForThird();
    BinadeValue(f, 54, j);
    BinadeValue(f, 54, j + 1);
    Pow2Add(2, 1074);
    DownCodeUnique(f.P(), Times(THIRD, u), PowerPattern(f, 54) + j);
  }

  lemma ThirdParts(u: nat)
    requires u > 0
    ensures 3 * u > 0 && 0x100000000000000 * u / (3 * u) == THIRD && 0x100000000000000 * u % (3 * u) == u
  {
    assert 0x100000000000000 * u == THIRD * (3 * u) + u;
    DivModUnique(0x100000000000000 * u, 3 * u, THIRD, u);
  }

  /** The quotient of 2^56 and 3.0 is rounded to a multiple of four: the modulus is exact, the quotient is not. */
  lemma LawFailsBig()
    ensures Unit(BINARY64) > 0 && !MakesUp(BINARY64, NearestEven, TWO56, THREE)
    ensures Ordinary(BINARY64, TWO56, THREE) && !NeedsCorrection(BINARY64, TWO56, THREE)
  {
    hide Mag, DownCode, Pow2, Unit, PowerPattern, Size, MakesUp;
    var f, a, b, u := BINARY64, TWO56, THREE, Unit(BINARY64);
    PatternsForThird();
    SizesForThird(u);
    ThirdParts(u);
    ThirdIsNoNumber(u);
    assert Wholes(f, a, b) == THIRD;
    QuotientAndModulus(f, NearestEven, a, b);
  }
}
