/** 64-bit division on a 32-bit machine: __udivmoddi4, __divdi3 and __moddi3 of libtcc1.c. */
module LongDivision {
  import opened Bits

  const B: nat := 0x1_0000_0000

  datatype Result = Quotient(q: nat, r: nat) | DivideByZero

  // ----- The machine instructions

  /** divl: the 64-bit number n1:n0 by d. The instruction faults unless n1 < d. */
  function DivWord(n1: nat, n0: nat, d: nat): (qr: (nat, nat))
    requires n1 < d
  {
    ((n1 * B + n0) / d, (n1 * B + n0) % d)
  }

  /** subl and sbbl: subtraction of 64-bit numbers, modulo 2^64. */
  function SubDouble(a: nat, b: nat): nat {
    (a - b) % (B * B)
  }

  lemma WordPowers()
    ensures Pow2(31) == 0x8000_0000 && Pow2(32) == B
  {
    assert Pow2(8) == 0x100;
    Pow2Add(8, 8);
    Pow2Add(16, 16);
  }

  /** bsrl ^ 31: the number of zero bits above the leading one of a 32-bit word. */
  function LeadingZeros(x: nat): (k: nat)
    requires 0 < x < B
    decreases B - x
  {
    if x >= 0x8000_0000 then 0 else LeadingZeros(2 * x) + 1
  }

  lemma {:induction false} LeadingZerosBounds(x: nat)
    requires 0 < x < B
    ensures LeadingZeros(x) < 32 && Pow2(31 - LeadingZeros(x)) <= x < Pow2(32 - LeadingZeros(x))
    decreases B - x
  {
    WordPowers();
    if x < 0x8000_0000 {
      LeadingZerosBounds(2 * x);
    }
  }

  // ----- Shifting a double word left through three words

  /** A multiple of 2^k and a number below 2^k share no bits. */
  lemma {:induction false} OrDisjoint(x: nat, y: nat, k: nat)
    requires y < Pow2(k)
    ensures Or(x * Pow2(k), y) == x * Pow2(k) + y
  {
    if k == 0 {
      assert Pow2(0) == 1;
    } else {
      OrDisjoint(x, y / 2, k - 1);
      OrStep(x * Pow2(k - 1), y);
      Doubling(x, Pow2(k - 1));
    }
  }

  lemma OrStep(a: nat, y: nat)
    ensures Or(2 * a, y) == 2 * Or(a, y / 2) + y % 2
  {
  }

  /** (hi << bm) | (lo >> (32 - bm)) */
  function Joined(hi: nat, lo: nat, bm: nat): nat
    requires bm <= 32
  {
    Or(Shl(32, hi, bm), Shr(lo, 32 - bm))
  }

  lemma JoinedValue(hi: nat, lo: nat, bm: nat)
    requires 0 < bm < 32 && hi < B && lo < B
    ensures var s, t := Pow2(bm), Pow2(32 - bm);
            && lo / t < s && Joined(hi, lo, bm) == hi % t * s + lo / t < B
            && Shl(32, lo, bm) == lo % t * s < B && Shr(hi, 32 - bm) == hi / t < s
  {
    hide Pow2, Or, Shr;
    var s, t := Pow2(bm), Pow2(32 - bm);
    WordSize(bm);
    ShrIsDiv(hi, 32 - bm);
    ShrIsDiv(lo, 32 - bm);
    ScaledMod(hi, t, s);
    ScaledMod(lo, t, s);
    QuotientBelow(hi, t, s);
    QuotientBelow(lo, t, s);
    OrDisjoint(hi % t, lo / t, bm);
    BelowWord(hi % t, t, s, lo / t);
    BelowWord(lo % t, t, s, 0);
  }

  /** hi >> (32 - bm), the joined word and lo << bm are the three words of the shifted number. */
  lemma ShiftedWords(hi: nat, lo: nat, bm: nat, n2: nat, n1: nat, n0: nat)
    requires 0 < bm < 32 && hi < B && lo < B
    requires n2 == Shr(hi, 32 - bm) && n1 == Joined(hi, lo, bm) && n0 == Shl(32, lo, bm)
    ensures n2 < Pow2(bm) && n1 < B && n0 < B && n0 <= B - Pow2(bm)
    ensures (n2 * B + n1) * B + n0 == (hi * B + lo) * Pow2(bm)
  {
    hide Pow2, Joined, Shl, Shr;
    var s, t := Pow2(bm), Pow2(32 - bm);
    WordSize(bm);
    JoinedValue(hi, lo, bm);
    MulOrder(lo % t, t - 1, s);
    OneLess(t, s);
    DivModParts(hi, t);
    DivModParts(lo, t);
    ThreeWords(hi, lo, s, t, hi / t, hi % t, lo / t, lo % t);
  }

  lemma WordSize(bm: nat)
    requires bm <= 32
    ensures Pow2(bm) * Pow2(32 - bm) == B && Pow2(32) == B
  {
    hide Pow2;
    WordPowers();
    Pow2Add(bm, 32 - bm);
  }

  lemma BelowWord(r: nat, t: nat, s: nat, h: nat)
    requires r < t && h < s
    ensures r * s + h < s * t
  {
    MulOrder(r + 1, t, s);
    assert (r + 1) * s == r * s + s;
  }

  lemma ThreeWords(hi: int, lo: int, s: int, t: int, n2: int, r1: int, h: int, r0: int)
    requires s * t == B && hi == n2 * t + r1 && lo == h * t + r0
    ensures (n2 * B + (r1 * s + h)) * B + r0 * s == (hi * B + lo) * s
  {
    assert n2 * t * s == n2 * B by { assert n2 * t * s == n2 * (s * t); }
    assert h * t * s == h * B by { assert h * t * s == h * (s * t); }
    assert hi * s == n2 * B + r1 * s;
    assert lo * s == h * B + r0 * s;
  }

  // ----- The quotient estimate

  lemma Square(s: int)
    ensures 4 * (s * (B - s)) <= B * B
  {
    assert (B - 2 * s) * (B - 2 * s) == B * B - 4 * (s * (B - s));
    assert (B - 2 * s) * (B - 2 * s) >= 0;
  }

  /** The estimate times the low divisor word never reaches the divisor. */
  lemma EstimateProductSmall(n2: nat, n1: nat, d1: nat, d0: nat, s: nat, q: nat, m: nat)
    requires 0 < s < B && n2 < s && n1 < B && d1 >= 0x8000_0000 && d0 <= B - s
    requires q == (n2 * B + n1) / d1 && m == q * d0
    ensures m < d1 * B
  {
    assert n2 * B + n1 < s * B by { MulOrder(n2 + 1, s, B); }
    EstimateSmall(n2 * B + n1, d1, s, q);
    ProductBelow(q, d0, 2 * s, B - s);
    Square(s);
  }

  lemma EstimateSmall(v: nat, d1: nat, s: nat, q: nat)
    requires v < s * B && d1 >= 0x8000_0000 && q == v / d1 && s > 0
    ensures q < 2 * s
  {
    FloorBounds(v, d1, q);
    if q >= 2 * s {
      MulOrder(2 * s, q, d1);
      MulOrder(0x8000_0000, d1, 2 * s);
    }
  }

  /** n2:n1:n0 divided by the normalized d1:d0: the estimate from the leading words is right or one too large,
    * and comparing the products tells which.
    */
  lemma EstimateCorrect(n2: nat, n1: nat, n0: nat, d1: nat, d0: nat, q: nat, r: nat, m: nat)
    requires n1 < B && n0 < B && d0 < B && d1 >= 0x8000_0000
    requires n2 * B + n1 == q * d1 + r && r < d1 && m == q * d0 && m < d1 * B
    ensures var n, d := (n2 * B + n1) * B + n0, d1 * B + d0;
            if m <= r * B + n0 then n - q * d == r * B + n0 - m && 0 <= n - q * d < d
            else q > 0 && n - (q - 1) * d == r * B + n0 - m + d && 0 <= n - (q - 1) * d < d
  {
    var n, d := (n2 * B + n1) * B + n0, d1 * B + d0;
    assert n == q * d1 * B + r * B + n0;
    assert q * d == q * d1 * B + m by { assert q * (d1 * B) == q * d1 * B; }
    assert (q - 1) * d == q * d - d;
    MulOrder(r + 1, d1, B);
  }

  // ----- The remainder, shifted back

  /** (hi << (32 - bm)) | (lo >> bm) under hi >> bm is hi:lo >> bm. */
  lemma ShiftedBack(hi: nat, lo: nat, bm: nat, low: nat, high: nat)
    requires 0 < bm < 32 && hi < B && lo < B
    requires low == Or(Shl(32, hi, 32 - bm), Shr(lo, bm)) && high == Shr(hi, bm)
    ensures high * B + low == (hi * B + lo) / Pow2(bm)
  {
    hide Pow2, Or, Shr, Joined;
    assert low == Joined(hi, lo, 32 - bm) by { JoinedIs(hi, lo, 32 - bm); }
    var s, t := Pow2(bm), Pow2(32 - bm);
    WordSize(bm);
    JoinedValue(hi, lo, 32 - bm);
    ShrIsDiv(hi, bm);
    DivideBack(hi, lo, s, t);
  }

  lemma JoinedIs(hi: nat, lo: nat, bm: nat)
    requires bm <= 32
    ensures Joined(hi, lo, bm) == Or(Shl(32, hi, bm), Shr(lo, 32 - bm))
  {
  }

  lemma DivideBack(hi: nat, lo: nat, s: nat, t: nat)
    requires s > 0 && t > 0 && s * t == B
    ensures hi / s * B + (hi % s * t + lo / s) == (hi * B + lo) / s
  {
    var a, r, c, z := hi / s, hi % s, lo / s, lo % s;
    DivModParts(hi, s);
    DivModParts(lo, s);
    Recombine(a, r, c, z, s, t, hi, lo);
    DivModUnique(hi * B + lo, s, a * B + (r * t + c), z);
  }

  lemma Recombine(a: int, r: int, c: int, z: int, s: int, t: int, hi: int, lo: int)
    requires s * t == B && hi == a * s + r && lo == c * s + z
    ensures hi * B + lo == (a * B + (r * t + c)) * s + z
  {
    assert r * t * s == r * B by { assert r * t * s == r * (s * t); }
    assert hi * B == a * B * s + r * B;
  }

  // ----- __udivmoddi4

  /** Quotient and remainder of 64-bit numbers. */
  function Divided(n: nat, d: nat): Result {
    if d == 0 then DivideByZero else Quotient(n / d, n % d)
  }

  method UDivMod(n: nat, d: nat) returns (res: Result)
    requires n < B * B && d < B * B
    ensures res == Divided(n, d)
    ensures res.DivideByZero? <==> d == 0
    ensures res.Quotient? ==> n == res.q * d + res.r && res.r < d && res.q < B * B
  {
    DividedParts(n, d);
    hide Pow2, LeadingZeros, Divided;
    var d0, d1, n0, n1 := d % B, d / B, n % B, n / B;
    if d1 == 0 {
      res := DivShort(n1, n0, d0);
    } else if d1 > n1 {
      DividesOnce(n, d);
      res := Quotient(0, n);
    } else {
      var bm := LeadingZeros(d1);
      LeadingZerosBounds(d1);
      if bm == 0 {
        WordPowers();
        DividesOnce(n, d);
        if n1 > d1 || n0 >= d0 {
          res := Quotient(1, SubDouble(n, d));
        } else {
          res := Quotient(0, n);
        }
      } else {
        res := DivNormalized(n1, n0, d1, d0, bm);
      }
    }
  }

  lemma DividedParts(n: nat, d: nat)
    ensures Divided(n, d).DivideByZero? <==> d == 0
    ensures d > 0 ==> var res := Divided(n, d); n == res.q * d + res.r && res.r < d && res.q <= n
  {
    if d > 0 {
      DivModParts(n, d);
      PartSizes(n, d, n / d, n % d);
    }
  }

  lemma DividesOnce(n: nat, d: nat)
    requires d > 0
    ensures n < d ==> Divided(n, d) == Quotient(0, n)
    ensures d <= n < 2 * d ==> Divided(n, d) == Quotient(1, n - d)
  {
    if n < d { SmallMod(n, d); } else if n < 2 * d { DivModUnique(n, d, 1, n - d); }
  }

  /** The case of a one-word divisor. */
  method DivShort(n1: nat, n0: nat, d0: nat) returns (res: Result)
    requires n1 < B && n0 < B && d0 < B
    ensures res == Divided(n1 * B + n0, d0)
  {
    if d0 > n1 {
      var (q, r) := DivWord(n1, n0, d0);
      res := Quotient(q, r);
    } else if d0 == 0 {
      res := DivideByZero;
    } else {
      var (q1, r1) := DivWord(0, n1, d0);
      var (q0, r0) := DivWord(r1, n0, d0);
      TwoDigits(n1, n0, d0, q1, r1, q0, r0);
      res := Quotient(q1 * B + q0, r0);
    }
  }

  lemma TwoDigits(n1: nat, n0: nat, d: nat, q1: nat, r1: nat, q0: nat, r0: nat)
    requires d > 0 && n1 == q1 * d + r1 && r1 * B + n0 == q0 * d + r0 && r0 < d
    ensures (n1 * B + n0) / d == q1 * B + q0 && (n1 * B + n0) % d == r0
  {
    assert n1 * B + n0 == (q1 * B + q0) * d + r0;
    DivModUnique(n1 * B + n0, d, q1 * B + q0, r0);
  }

  /** Shifting by its leading zeros normalizes the divisor. */
  lemma NormalizedDivisor(d1: nat, d0: nat, bm: nat, e1: nat, e0: nat)
    requires 0 < bm < 32 && Pow2(31 - bm) <= d1 < Pow2(32 - bm) && d1 < B && d0 < B
    requires e1 == Joined(d1, d0, bm) && e0 == Shl(32, d0, bm)
    ensures 0x8000_0000 <= e1 < B && e0 < B && e0 <= B - Pow2(bm)
    ensures e1 * B + e0 == (d1 * B + d0) * Pow2(bm)
  {
    hide Pow2, Joined, Shl, Shr;
    ShiftedWords(d1, d0, bm, Shr(d1, 32 - bm), e1, e0);
    ShrIsDiv(d1, 32 - bm);
    SmallMod(d1, Pow2(32 - bm));
    TopBit(d1, d0, bm);
  }

  lemma TopBit(d1: nat, d0: nat, bm: nat)
    requires 0 < bm < 32 && Pow2(31 - bm) <= d1 && d0 < B
    ensures (d1 * B + d0) * Pow2(bm) >= 0x8000_0000 * B
  {
    hide Pow2;
    Pow2Add(31 - bm, bm);
    WordPowers();
    MulOrder(Pow2(31 - bm), d1, Pow2(bm));
    WordProduct(d1, d0, Pow2(bm));
    MulOrder(0x8000_0000, d1 * Pow2(bm), B);
  }

  lemma WordProduct(d1: int, d0: int, s: int)
    ensures (d1 * B + d0) * s == d1 * s * B + d0 * s
  {
  }

  lemma ShiftBound(bm: nat)
    requires bm < 32
    ensures Pow2(bm) <= 0x8000_0000
  {
    Pow2Mono(bm, 31);
    WordPowers();
  }

  /** Undoing the normalization. */
  lemma Descale(n: nat, d: nat, s: nat, q: nat, rest: nat)
    requires s > 0 && d > 0 && rest == n * s - q * (d * s) && rest < d * s
    ensures q == n / d && rest / s == n % d
  {
    var r: int := n - q * d;
    assert rest == r * s by { assert q * (d * s) == q * d * s; assert (n - q * d) * s == n * s - q * d * s; }
    if r < 0 { MulOrder(r, -1, s); }
    if r >= d { MulOrder(d, r, s); }
    DivModUnique(n, d, q, r);
    MultipleMod(r, s);
  }

  /** With the correction the code subtracts a product that has wrapped below zero; the result is still right. */
  lemma SubTwice(v: nat, p: nat, d: nat)
    requires v < p < d < B * B
    ensures SubDouble(v, SubDouble(p, d)) == v - p + d
  {
    assert SubDouble(p, d) == p - d + B * B;
  }

  lemma SubOnce(v: nat, p: nat)
    requires p <= v < B * B
    ensures SubDouble(v, p) == v - p
  {
  }

  /** The estimate, the comparison and the correction: m2:m1:m0 divided by the normalized e1:e0. */
  method DivEstimated(m2: nat, m1: nat, m0: nat, e1: nat, e0: nat, ghost s: nat) returns (q: nat, rest: nat)
    requires 0 < s <= 0x8000_0000 && m2 < s && m1 < B && m0 < B && 0x8000_0000 <= e1 < B && e0 < B && e0 <= B - s
    ensures (m2 * B + m1) * B + m0 == q * (e1 * B + e0) + rest && rest < e1 * B + e0
  {
    hide SubDouble;
    var r;
    q, r := DivWord(m2, m1, e1).0, DivWord(m2, m1, e1).1;
    FloorBounds(m2 * B + m1, e1, q);
    var p := q * e0;
    EstimateProductSmall(m2, m1, e1, e0, s, q, p);
    EstimateCorrect(m2, m1, m0, e1, e0, q, r, p);
    if p > r * B + m0 {
      SubTwice(r * B + m0, p, e1 * B + e0);
      q := q - 1;
      p := SubDouble(p, e1 * B + e0);
    } else {
      SubOnce(r * B + m0, p);
    }
    rest := SubDouble(r * B + m0, p);
  }

  /** The case of a two-word divisor whose leading bit is not set. */
  method DivNormalized(n1: nat, n0: nat, d1: nat, d0: nat, bm: nat) returns (res: Result)
    requires n1 < B && n0 < B && 0 < d1 < B && d0 < B && d1 <= n1
    requires 0 < bm < 32 && Pow2(31 - bm) <= d1 < Pow2(32 - bm)
    ensures res == Divided(n1 * B + n0, d1 * B + d0)
  {
    hide Pow2, Joined, Shl, Shr, Or;
    var b := 32 - bm;
    var e1, e0 := Joined(d1, d0, bm), Shl(32, d0, bm);
    var m2, m1, m0 := Shr(n1, b), Joined(n1, n0, bm), Shl(32, n0, bm);
    NormalizedDivisor(d1, d0, bm, e1, e0);
    ShiftedWords(n1, n0, bm, m2, m1, m0);
    ShiftBound(bm);
    var q, rest := DivEstimated(m2, m1, m0, e1, e0, Pow2(bm));
    Descale(n1 * B + n0, d1 * B + d0, Pow2(bm), q, rest);
    var low := Or(Shl(32, rest / B, b), Shr(rest % B, bm));
    ShiftedBack(rest / B, rest % B, bm, low, Shr(rest / B, bm));
    res := Quotient(q, Shr(rest / B, bm) * B + low);
  }

  // ----- Signed division

  const MIN: nat := 0x8000_0000_0000_0000

  /** The number a 64-bit pattern stands for in two's complement. */
  function Signed(x: nat): int { if x < MIN then x else x - B * B }

  /** -x on 64-bit patterns. */
  function Negated(x: nat): nat { (0 - x) % (B * B) }

  function AbsInt(x: int): nat { if x < 0 then -x else x }

  /** The quotient of C, truncated toward zero. */
  function TruncDiv(a: int, b: int): int
    requires b != 0
  {
    var q: int := AbsInt(a) / AbsInt(b);
    if (a < 0) == (b < 0) then q else -q
  }

  function TruncMod(a: int, b: int): int
    requires b != 0
  {
    var r: int := AbsInt(a) % AbsInt(b);
    if a < 0 then -r else r
  }

  /** Truncated quotient and remainder make up the dividend; the remainder is smaller than the divisor
    * and has the sign of the dividend.
    */
  lemma TruncParts(a: int, b: int)
    requires b != 0
    ensures a == TruncDiv(a, b) * b + TruncMod(a, b)
    ensures AbsInt(TruncMod(a, b)) < AbsInt(b) && (TruncMod(a, b) == 0 || (TruncMod(a, b) < 0 <==> a < 0))
  {
    hide TruncDiv, TruncMod, AbsInt;
    var q, r := MagnitudeParts(a, b);
    SignedParts(a, b, q, r, TruncDiv(a, b), TruncMod(a, b));
    SignedSize(a, b, r, TruncMod(a, b));
  }

  lemma MagnitudeParts(a: int, b: int) returns (q: nat, r: nat)
    requires b != 0
    ensures AbsInt(a) == q * AbsInt(b) + r && r < AbsInt(b)
    ensures TruncDiv(a, b) == (if (a < 0) == (b < 0) then q as int else 0 - q)
    ensures TruncMod(a, b) == (if a < 0 then 0 - r else r)
  {
    q, r := AbsInt(a) / AbsInt(b), AbsInt(a) % AbsInt(b);
    DivModParts(AbsInt(a), AbsInt(b));
  }

  lemma SignedSize(a: int, b: int, r: nat, tr: int)
    requires r < AbsInt(b) && tr == (if a < 0 then 0 - r else r)
    ensures AbsInt(tr) < AbsInt(b) && (tr == 0 || (tr < 0 <==> a < 0))
  {
  }

  lemma SignedParts(a: int, b: int, q: nat, r: nat, tq: int, tr: int)
    requires b != 0 && AbsInt(a) == q * AbsInt(b) + r
    requires tq == (if (a < 0) == (b < 0) then q as int else 0 - q) && tr == (if a < 0 then 0 - r else r)
    ensures a == tq * b + tr
  {
    ProductSigns(q, AbsInt(b));
  }

  /** Signed is two's complement: the number in the signed range congruent to the pattern; Negated negates. */
  lemma TwosComplement(x: nat)
    requires x < B * B
    ensures 0 - MIN <= Signed(x) < MIN && (Signed(x) == x || Signed(x) == x - B * B)
    ensures Negated(x) < B * B && (x + Negated(x) == 0 || x + Negated(x) == B * B)
  {
  }

  /** The magnitude of a pattern, by conditional negation. */
  lemma Magnitude(x: nat)
    requires x < B * B
    ensures (if x >= MIN then Negated(x) else x) == AbsInt(Signed(x)) <= MIN
  {
  }

  lemma SignBits(x: nat)
    requires x < B * B
    ensures Signed(x) < 0 <==> x >= MIN
    ensures Signed(x) == 0 <==> x == 0
  {
  }

  /** Putting the sign back on a magnitude. */
  lemma SignedBack(q: nat, c: bool)
    requires q <= MIN
    ensures Signed(if c then Negated(q) else q) == if c || q == MIN then 0 - q else q
  {
  }

  /** __divdi3; a is negative when its high word is. */
  method DivSigned(u: nat, v: nat) returns (res: Result)
    requires u < B * B && v < B * B
    ensures res.DivideByZero? <==> v == 0
    ensures v != 0 ==>
              if Signed(u) == 0 - MIN && Signed(v) == -1 then Signed(res.q) == 0 - MIN
              else Signed(res.q) == TruncDiv(Signed(u), Signed(v))
  {
    Magnitude(u);
    Magnitude(v);
    SignBits(u);
    SignBits(v);
    hide Signed, Negated;
    var c := false;
    var uu, vv := u, v;
    if uu >= MIN {
      c := !c;
      uu := Negated(uu);
    }
    if vv >= MIN {
      c := !c;
      vv := Negated(vv);
    }
    res := UDivMod(uu, vv);
    if res.Quotient? {
      QuotientSize(uu, vv);
      SignedBack(res.q, c);
      if c {
        res := Quotient(Negated(res.q), res.r);
      }
    }
  }

  lemma QuotientSize(x: nat, y: nat)
    requires y > 0
    ensures x / y <= x && x % y < y && x % y <= x && (y >= 2 && x > 0 ==> x / y < x) && (y == 1 ==> x / y == x)
  {
    DivModParts(x, y);
    PartSizes(x, y, x / y, x % y);
  }

  lemma PartSizes(x: nat, y: nat, q: nat, r: nat)
    requires y > 0 && x == q * y + r
    ensures q <= x && r <= x && (y >= 2 && x > 0 ==> q < x) && (y == 1 && r == 0 ==> q == x)
  {
    MulOrder(1, y, q);
    if y >= 2 { MulOrder(2, y, q); }
  }

  /** __moddi3 */
  method ModSigned(u: nat, v: nat) returns (res: Result)
    requires u < B * B && v < B * B
    ensures res.DivideByZero? <==> v == 0
    ensures v != 0 ==> Signed(res.r) == TruncMod(Signed(u), Signed(v))
  {
    Magnitude(u);
    Magnitude(v);
    SignBits(u);
    SignBits(v);
    hide Signed, Negated;
    var c := false;
    var uu, vv := u, v;
    if uu >= MIN {
      c := !c;
      uu := Negated(uu);
    }
    if vv >= MIN {
      vv := Negated(vv);
    }
    res := UDivMod(uu, vv);
    if res.Quotient? {
      QuotientSize(uu, vv);
      SignedBack(res.r, c);
      if c {
        res := Quotient(res.q, Negated(res.r));
      }
    }
  }

  /** The quotient is the one C asks for exactly when it is a 64-bit number. */
  lemma OnlyOneOverflow(a: int, b: int)
    requires b != 0 && 0 - MIN <= a < MIN && 0 - MIN <= b < MIN
    ensures 0 - MIN <= TruncDiv(a, b) < MIN <==> !(a == 0 - MIN && b == -1)
  {
    QuotientSize(AbsInt(a), AbsInt(b));
  }
}
