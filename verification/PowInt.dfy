/** _Pow_int of math.h over exact numbers. */
module PowInt {
  import opened Bits

  function Power(x: real, n: nat): real {
    if n == 0 then 1.0 else x * Power(x, n - 1)
  }

  function Abs(x: real): real { if x < 0.0 then -x else x }

  lemma {:induction false} PowerAdd(x: real, a: nat, b: nat)
    ensures Power(x, a + b) == Power(x, a) * Power(x, b)
  {
    if a > 0 {
      PowerAdd(x, a - 1, b);
      assert Power(x, a + b) == x * (Power(x, a - 1) * Power(x, b));
      AssociateReal(x, Power(x, a - 1), Power(x, b));
    }
  }

  lemma AssociateReal(a: real, b: real, c: real)
    ensures a * b * c == a * (b * c)
  {
  }

  lemma ProductOrder(a: real, b: real, c: real)
    requires 0.0 <= a && b <= c
    ensures a * b <= a * c
  {
  }

  lemma AbsProduct(a: real, b: real)
    ensures Abs(a * b) == Abs(a) * Abs(b)
  {
  }

  lemma {:induction false} AbsPower(x: real, n: nat)
    ensures Abs(Power(x, n)) == Power(Abs(x), n)
  {
    if n > 0 {
      AbsPower(x, n - 1);
      AbsProduct(x, Power(x, n - 1));
    }
  }

  /** Powers of a magnitude of at least one grow with the exponent. */
  lemma {:induction false} PowerGrows(m: real, a: nat, b: nat)
    requires m >= 1.0 && a <= b
    ensures 1.0 <= Power(m, a) <= Power(m, b)
    decreases b
  {
    if b > 0 {
      if a == b { PowerGrows(m, a - 1, b - 1); } else { PowerGrows(m, a, b - 1); }
      ProductOrder(Power(m, b - 1), 1.0, m);
      assert m * Power(m, b - 1) >= Power(m, b - 1);
    }
  }

  lemma {:induction false} PowerNonZero(x: real, n: nat)
    requires x != 0.0
    ensures Power(x, n) != 0.0
  {
    if n > 0 { PowerNonZero(x, n - 1); }
  }

  lemma PowerOfZero(n: nat)
    requires n > 0
    ensures Power(0.0, n) == 0.0
  {
  }

  datatype Quotient = Number(value: real) | DivisionByZero

  /** X^Y for any integer Y. */
  function IntegerPower(x: real, y: int): Quotient {
    if y >= 0 then Number(Power(x, y))
    else if x == 0.0 then DivisionByZero
    else PowerNonZero(x, -y); Number(1.0 / Power(x, -y))
  }

  /** The laws that determine X^Y: X^0 is 1 and one more in the exponent is one more factor, for negative exponents too;
    * powers of zero are zero above the exponent 0 and a division by zero below it.
    */
  lemma ExponentLaws(x: real, y: int)
    ensures IntegerPower(x, 0) == Number(1.0)
    ensures x != 0.0 ==>
              && IntegerPower(x, y).Number? && IntegerPower(x, y + 1).Number?
              && IntegerPower(x, y + 1).value == x * IntegerPower(x, y).value
    ensures x == 0.0 && y > 0 ==> IntegerPower(x, y) == Number(0.0)
    ensures IntegerPower(x, y).DivisionByZero? <==> x == 0.0 && y < 0
  {
    if x == 0.0 {
      if y > 0 { PowerOfZero(y); }
    } else if y < 0 {
      PowerNonZero(x, -y);
      PowerNonZero(x, -y - 1);
      assert Power(x, -y) == x * Power(x, -y - 1);
      hide Power;
      InverseStep(x, Power(x, -y - 1), Power(x, -y));
    }
  }

  lemma InverseStep(x: real, p: real, q: real)
    requires x != 0.0 && p != 0.0 && q == x * p && q != 0.0
    ensures 1.0 / p == x * (1.0 / q)
  {
    assert p * (x * (1.0 / q)) == q * (1.0 / q) == 1.0;
  }

  function MagnitudeOf(y: int): nat { if y >= 0 then y else -y }

  /** The bound on every intermediate result. */
  function Ceiling(x: real, y: int): real {
    Power(Abs(x), if y == 0 then 1 else MagnitudeOf(y))
  }

  /** The values _X takes: x squared again and again. */
  ghost predicate Squares(x: real, bases: seq<real>) {
    forall i :: 0 <= i < |bases| ==> bases[i] == Power(x, Pow2(i))
  }

  /** The values _Z has before and after each pass: x raised to the digits of the exponent used so far. */
  ghost predicate Products(x: real, y: int, products: seq<real>) {
    forall i :: 0 <= i < |products| ==> products[i] == Power(x, MagnitudeOf(y) % Pow2(i))
  }

  ghost predicate Bounded(values: seq<real>, bound: real) {
    forall i :: 0 <= i < |values| ==> Abs(values[i]) <= bound
  }

  /** What the loop keeps: done is the part of the exponent already in z, n * 2^s the part still to come. */
  ghost predicate Kept(x: real, y: int, n: nat, z: real, base: real, done: nat, s: nat) {
    && n * Pow2(s) + done == MagnitudeOf(y) && done < Pow2(s)
    && (n == 0 ==> y == 0 && s == 0)
    && z == Power(x, done) && base == Power(x, Pow2(s))
  }

  /** What holds once the lowest digit of n has been used and shifted out. */
  ghost predicate Consumed(x: real, y: int, n: nat, z: real, base: real, done: nat, s: nat) {
    && n * (2 * Pow2(s)) + done == MagnitudeOf(y) && done < 2 * Pow2(s)
    && (n == 0 ==> (y == 0 && s == 0) || Pow2(s) <= done)
    && z == Power(x, done) && base == Power(x, Pow2(s))
  }

  lemma ConsumeDigit(x: real, y: int, n: nat, z: real, base: real, done: nat, s: nat)
    requires Kept(x, y, n, z, base, done, s)
    ensures n % 2 == 0 ==> Consumed(x, y, n / 2, z, base, done, s)
    ensures n % 2 == 1 ==> Consumed(x, y, n / 2, z * base, base, done + Pow2(s), s)
  {
    hide Power, Pow2;
    HalveExponent(n, Pow2(s), done);
    PowerAdd(x, done, Pow2(s));
    if n % 2 == 1 {
      HalvesPositive(n / 2, Pow2(s));
    }
  }

  lemma HalvesPositive(h: nat, p: nat)
    ensures 0 <= h * (2 * p)
  {
  }

  lemma SquareBase(x: real, y: int, n: nat, z: real, base: real, done: nat, s: nat)
    requires Consumed(x, y, n, z, base, done, s) && n > 0
    ensures Kept(x, y, n, z, base * base, done, s + 1)
  {
    hide Power, Pow2;
    PowStep(s);
    PowerAdd(x, Pow2(s), Pow2(s));
  }

  /** The digits used are the exponent modulo a power of two. */
  lemma DigitsUsed(y: int, n: nat, done: nat, s: nat)
    requires n * Pow2(s) + done == MagnitudeOf(y) && done < Pow2(s)
    ensures MagnitudeOf(y) % Pow2(s) == done
  {
    hide Pow2;
    DivModUnique(MagnitudeOf(y), Pow2(s), n, done);
  }

  lemma ConsumedDigits(x: real, y: int, n: nat, z: real, base: real, done: nat, s: nat)
    requires Consumed(x, y, n, z, base, done, s)
    ensures z == Power(x, MagnitudeOf(y) % Pow2(s + 1))
  {
    hide Pow2, Power;
    PowStep(s);
    DigitsUsed(y, n, done, s + 1);
  }

  lemma Finished(x: real, y: int, z: real, base: real, done: nat, s: nat)
    requires Consumed(x, y, 0, z, base, done, s)
    ensures z == Power(x, MagnitudeOf(y)) && (z == 0.0 <==> x == 0.0 && y != 0)
    ensures if y == 0 then s == 0 else Pow2(s) <= MagnitudeOf(y) < Pow2(s + 1)
  {
    ResultSign(x, done);
    PowStep(s);
    hide Power, Pow2;
  }

  /** Every value is a power within the exponent, so none exceeds the bound when the magnitude of x is at least one. */
  lemma AllBounded(x: real, y: int, bases: seq<real>, products: seq<real>)
    requires Squares(x, bases) && Products(x, y, products) && |bases| > 0
    requires if y == 0 then |bases| == 1 else Pow2(|bases| - 1) <= MagnitudeOf(y)
    ensures Abs(x) >= 1.0 ==> Bounded(bases, Ceiling(x, y)) && Bounded(products, Ceiling(x, y))
  {
    hide Power, Pow2, Abs, Ceiling;
    forall i | 0 <= i < |bases| && Abs(x) >= 1.0 ensures Abs(bases[i]) <= Ceiling(x, y) {
      BaseWithin(y, i, |bases|);
      WithinCeiling(x, y, Pow2(i));
    }
    forall i | 0 <= i < |products| && Abs(x) >= 1.0 ensures Abs(products[i]) <= Ceiling(x, y) {
      RestWithin(MagnitudeOf(y), Pow2(i));
      WithinCeiling(x, y, MagnitudeOf(y) % Pow2(i));
    }
  }

  lemma BaseWithin(y: int, i: nat, n: nat)
    requires i < n && if y == 0 then n == 1 else Pow2(n - 1) <= MagnitudeOf(y)
    ensures Pow2(i) <= if y == 0 then 1 else MagnitudeOf(y)
  {
    Pow2Mono(i, n - 1);
    assert Pow2(0) == 1;
  }

  lemma RestWithin(x: nat, m: nat)
    requires m > 0
    ensures x % m <= x
  {
    if x < m { SmallMod(x, m); }
  }

  /** bases and products are all the values that _X and _Z ever have, in order: there is one more _X than squarings, and
    * one more _Z than passes. The last base and product are the ones the loop ends with.
    */
  method PowInt(x: real, y: int)
    returns (r: Quotient, squarings: nat, ghost bases: seq<real>, ghost products: seq<real>)
    requires -0x8000_0000 < y < 0x8000_0000
    ensures r == IntegerPower(x, y)
    ensures if y == 0 then squarings == 0 else Pow2(squarings) <= MagnitudeOf(y) < Pow2(squarings + 1)
    ensures |bases| == squarings + 1 && Squares(x, bases)
    ensures |products| == squarings + 2 && Products(x, y, products)
    ensures Abs(x) >= 1.0 ==> Bounded(bases, Ceiling(x, y)) && Bounded(products, Ceiling(x, y))
  {
    var n: nat := MagnitudeOf(y);
    var z, base := 1.0, x;
    ghost var done: nat := 0;
    squarings := 0;
    Start(x, y);
    bases, products := [base], [z];
    hide Power, Pow2, Kept, Consumed, Ceiling, Abs;
    while true
      invariant Kept(x, y, n, z, base, done, squarings)
      invariant |bases| == squarings + 1 == |products|
      invariant Squares(x, bases) && Products(x, y, products)
      decreases n
    {
      ConsumeDigit(x, y, n, z, base, done, squarings);
      if n % 2 == 1 {
        z := z * base;
        done := done + Pow2(squarings);
      }
      n := n / 2;
      ConsumedDigits(x, y, n, z, base, done, squarings);
      products := products + [z];
      if n == 0 {
        Finished(x, y, z, base, done, squarings);
        AllBounded(x, y, bases, products);
        if y < 0 {
          r := if z == 0.0 then DivisionByZero else Number(1.0 / z);
        } else {
          r := Number(z);
        }
        return;
      }
      SquareBase(x, y, n, z, base, done, squarings);
      base := base * base;
      squarings := squarings + 1;
      BaseIs(x, y, n, z, base, done, squarings);
      bases := bases + [base];
    }
  }

  lemma BaseIs(x: real, y: int, n: nat, z: real, base: real, done: nat, s: nat)
    requires Kept(x, y, n, z, base, done, s)
    ensures base == Power(x, Pow2(s))
  {
  }

  lemma Start(x: real, y: int)
    ensures Kept(x, y, MagnitudeOf(y), 1.0, x, 0, 0)
    ensures Power(x, Pow2(0)) == x && Power(x, MagnitudeOf(y) % Pow2(0)) == 1.0
  {
    assert Pow2(0) == 1 && Power(x, 1) == x && Power(x, 0) == 1.0;
  }

  lemma HalveExponent(n: nat, p: nat, done: nat)
    ensures n * p + done == n / 2 * (2 * p) + done + if n % 2 == 1 then p else 0
  {
    var h := n / 2;
    assert n == 2 * h + n % 2;
    Regrouped(h, p);
  }

  lemma Regrouped(h: int, p: int)
    ensures (2 * h) * p == h * (2 * p) && (2 * h + 1) * p == h * (2 * p) + p
  {
  }

  lemma ResultSign(x: real, n: nat)
    ensures Power(x, n) == 0.0 <==> x == 0.0 && n > 0
  {
    if x != 0.0 {
      PowerNonZero(x, n);
    } else if n > 0 {
      PowerOfZero(n);
    }
  }

  lemma WithinCeiling(x: real, y: int, n: nat)
    requires n <= if y == 0 then 1 else MagnitudeOf(y)
    ensures Abs(x) >= 1.0 ==> Abs(Power(x, n)) <= Ceiling(x, y)
  {
    AbsPower(x, n);
    if Abs(x) >= 1.0 {
      PowerGrows(Abs(x), n, if y == 0 then 1 else MagnitudeOf(y));
    }
  }
}
