/** Powers of two and the C bitwise operators on unsigned words.
  * A word of width w is a natural number below Pow2(w).
  */
module Bits {

  function Pow2(n: nat): (p: nat)
    ensures p > 0
  {
    if n == 0 then 1 else 2 * Pow2(n - 1)
  }

  lemma {:induction false} Pow2Add(a: nat, b: nat)
    ensures Pow2(a + b) == Pow2(a) * Pow2(b)
  {
    if a > 0 {
      Pow2Add(a - 1, b);
      assert Pow2(a + b) == 2 * Pow2(a - 1 + b);
    }
  }

  lemma PowStep(k: nat)
    ensures Pow2(k + 1) == 2 * Pow2(k)
  {
  }

  lemma {:induction false} Pow2Mono(a: nat, b: nat)
    requires a <= b
    ensures Pow2(a) <= Pow2(b)
    ensures a < b ==> 2 * Pow2(a) <= Pow2(b)
  {
    if a < b {
      Pow2Mono(a, b - 1);
    }
  }

  lemma Pow2Divides(a: nat, b: nat)
    requires a <= b
    ensures Pow2(b) % Pow2(a) == 0
    ensures Pow2(b) == Pow2(b - a) * Pow2(a)
  {
    Pow2Add(b - a, a);
    MultipleMod(Pow2(b - a), Pow2(a));
  }

  lemma MultipleMod(k: int, m: nat)
    requires m > 0
    ensures (k * m) % m == 0 && (k * m) / m == k
  {
    DivModUnique(k * m, m, k, 0);
  }

  /** Euclidean division has one answer. */
  lemma DivModUnique(x: int, m: nat, q: int, r: int)
    requires m > 0 && x == q * m + r && 0 <= r < m
    ensures x / m == q && x % m == r
  {
    var d := q - x / m;
    assert d * m == q * m - x / m * m == x % m - r;
    SmallMultiple(d, m);
  }

  lemma SmallMultiple(d: int, m: int)
    requires -m < d * m < m
    ensures d == 0
  {
    if d >= 1 {
      MulOrder(1, d, m);
    } else if d <= -1 {
      MulOrder(d, -1, m);
    }
  }

  lemma MulOrder(a: int, b: int, m: int)
    requires a <= b && 0 <= m
    ensures a * m <= b * m
  {
  }

  lemma Doubling(a: int, b: int)
    ensures a * (2 * b) == 2 * (a * b)
  {
  }

  lemma OneLess(n: int, c: int)
    ensures (n - 1) * c == n * c - c
  {
  }

  lemma ProductSigns(q: int, y: int)
    ensures (-q) * (-y) == q * y && (-q) * y == -(q * y) && q * (-y) == -(q * y)
  {
  }

  lemma ProductBelow(q: nat, c: nat, x: nat, y: nat)
    requires q < x && c <= y && y > 0
    ensures q * c < x * y
  {
    MulOrder(q + 1, x, y);
    assert (q + 1) * y == q * y + y;
    assert q * c <= q * y by { MulOrder(c, y, q); }
  }

  lemma Associate(a: int, b: int, c: int)
    ensures a * b * c == a * (b * c)
  {
  }

  lemma DistributeMinus(a: int, b: int, s: int)
    ensures (a - b) * s == a * s - b * s
  {
  }

  lemma DivModParts(x: nat, t: nat)
    requires t > 0
    ensures x == x / t * t + x % t
  {
  }

  lemma QuotientBelow(v: nat, u: nat, t: nat)
    requires u > 0
    ensures v / u < t <==> v < t * u
  {
    FloorBounds(v, u, v / u);
    if v / u < t { MulOrder(v / u + 1, t, u); } else { MulOrder(t, v / u, u); }
  }

  lemma FloorBounds(v: nat, scale: nat, q: nat)
    requires scale > 0 && q == v / scale
    ensures q * scale <= v < (q + 1) * scale
  {
    assert v == q * scale + v % scale;
  }

  /** The i-th binary digit of x. */
  predicate Bit(x: nat, i: nat) {
    if i == 0 then x % 2 == 1 else Bit(x / 2, i - 1)
  }

  function And(x: nat, y: nat): nat {
    if x == 0 || y == 0 then 0 else 2 * And(x / 2, y / 2) + (if x % 2 == 1 && y % 2 == 1 then 1 else 0)
  }

  function Or(x: nat, y: nat): nat {
    if x == 0 || y == 0 then x + y else 2 * Or(x / 2, y / 2) + (if x % 2 == 1 || y % 2 == 1 then 1 else 0)
  }

  function Xor(x: nat, y: nat): nat {
    if x == 0 || y == 0 then x + y else 2 * Xor(x / 2, y / 2) + (if x % 2 != y % 2 then 1 else 0)
  }

  /** x >> k */
  function Shr(x: nat, k: nat): nat {
    if k == 0 then x else Shr(x / 2, k - 1)
  }

  lemma {:induction false} ShrIsDiv(x: nat, k: nat)
    ensures Shr(x, k) == x / Pow2(k)
  {
    if k > 0 {
      ShrIsDiv(x / 2, k - 1);
      HalfDiv(x, Pow2(k - 1));
    }
  }

  /** x << k in a word of width w. */
  function Shl(w: nat, x: nat, k: nat): nat {
    x * Pow2(k) % Pow2(w)
  }

  lemma ScaledMod(x: nat, m: nat, s: nat)
    requires m > 0 && s > 0
    ensures m * s > 0 && x * s % (m * s) == x % m * s
  {
    var q, r := x / m, x % m;
    FactorOut(x, q, m, r, s);
    MulOrder(r + 1, m, s);
    MulOrder(0, r, s);
    assert (r + 1) * s == r * s + s;
    DivModUnique(x * s, m * s, q, r * s);
  }

  lemma FactorOut(x: int, q: int, m: int, r: int, s: int)
    requires x == q * m + r
    ensures x * s == q * (m * s) + r * s
  {
  }

  /** A left shift gives zero exactly when the digits it keeps are zero. */
  lemma ShlZero(w: nat, x: nat, k: nat)
    requires k <= w
    ensures Shl(w, x, k) == 0 <==> x % Pow2(w - k) == 0
  {
    Pow2Add(w - k, k);
    ScaledMod(x, Pow2(w - k), Pow2(k));
    if x % Pow2(w - k) > 0 { MulOrder(1, x % Pow2(w - k), Pow2(k)); }
  }

  lemma HalfDiv(x: nat, p: nat)
    requires p > 0
    ensures x / (2 * p) == x / 2 / p
  {
    var q, r := x / 2 / p, x / 2 % p;
    assert x == q * (2 * p) + (2 * r + x % 2);
    DivModUnique(x, 2 * p, q, 2 * r + x % 2);
  }

  /** The operator ~ on a word of width w. */
  function Not(w: nat, x: nat): nat
    requires x < Pow2(w)
  {
    Pow2(w) - 1 - x
  }

  // ----- What the operators do to each digit

  lemma {:induction false} ZeroBit(i: nat)
    ensures !Bit(0, i)
  {
    if i > 0 { ZeroBit(i - 1); }
  }

  lemma {:induction false} AndBit(x: nat, y: nat, i: nat)
    ensures Bit(And(x, y), i) <==> Bit(x, i) && Bit(y, i)
  {
    if x == 0 || y == 0 {
      ZeroBit(i);
    } else if i > 0 {
      AndBit(x / 2, y / 2, i - 1);
    }
  }

  lemma {:induction false} OrBit(x: nat, y: nat, i: nat)
    ensures Bit(Or(x, y), i) <==> Bit(x, i) || Bit(y, i)
  {
    if x == 0 || y == 0 {
      ZeroBit(i);
    } else if i > 0 {
      OrBit(x / 2, y / 2, i - 1);
    }
  }

  lemma {:induction false} XorBit(x: nat, y: nat, i: nat)
    ensures Bit(Xor(x, y), i) <==> Bit(x, i) != Bit(y, i)
  {
    if x == 0 || y == 0 {
      ZeroBit(i);
    } else if i > 0 {
      XorBit(x / 2, y / 2, i - 1);
    }
  }

  lemma {:induction false} NotBit(w: nat, x: nat, i: nat)
    requires x < Pow2(w)
    ensures Bit(Not(w, x), i) <==> i < w && !Bit(x, i)
  {
    if w == 0 {
      ZeroBit(i);
    } else if i > 0 {
      assert Not(w, x) / 2 == Not(w - 1, x / 2);
      NotBit(w - 1, x / 2, i - 1);
    }
  }

  lemma {:induction false} PowBit(k: nat, i: nat)
    ensures Bit(Pow2(k), i) <==> i == k
  {
    if k == 0 {
      if i > 0 { ZeroBit(i - 1); }
    } else if i > 0 {
      PowBit(k - 1, i - 1);
    }
  }

  /** A number is determined by its digits. */
  lemma {:induction false} SameBits(x: nat, y: nat)
    requires forall i: nat :: Bit(x, i) == Bit(y, i)
    ensures x == y
    decreases x + y
  {
    assert Bit(x, 0) == Bit(y, 0);
    if x > 0 || y > 0 {
      forall i: nat ensures Bit(x / 2, i) == Bit(y / 2, i) {
        assert Bit(x, i + 1) == Bit(y, i + 1);
      }
      SameBits(x / 2, y / 2);
    }
  }

  /** x doubled k times. */
  function Doubled(x: nat, k: nat): nat {
    if k == 0 then x else 2 * Doubled(x, k - 1)
  }

  /** Shifting both operands shifts the result. */
  lemma {:induction false} DoubledBoth(x: nat, y: nat, k: nat)
    ensures And(Doubled(x, k), Doubled(y, k)) == Doubled(And(x, y), k)
    ensures Or(Doubled(x, k), Doubled(y, k)) == Doubled(Or(x, y), k)
  {
    if k > 0 {
      DoubledBoth(x, y, k - 1);
      DoubleOnce(Doubled(x, k - 1), Doubled(y, k - 1));
    }
  }

  lemma DoubleOnce(a: nat, b: nat)
    ensures And(2 * a, 2 * b) == 2 * And(a, b) && Or(2 * a, 2 * b) == 2 * Or(a, b)
  {
  }

  // ----- Ranges and masks

  lemma {:induction false} StaysBelow(x: nat, y: nat, w: nat)
    requires x < Pow2(w) && y < Pow2(w)
    ensures And(x, y) < Pow2(w) && Or(x, y) < Pow2(w) && Xor(x, y) < Pow2(w)
  {
    if w > 0 && x > 0 && y > 0 {
      StaysBelow(x / 2, y / 2, w - 1);
    }
  }

  /** x modulo m. */
  function Low(x: nat, m: nat): nat
    requires m > 0
  {
    x % m
  }

  lemma HighMask(x: nat, w: nat, k: nat)
    requires k <= w && x < Pow2(w)
    ensures Pow2(k) <= Pow2(w)
    ensures And(x, Pow2(w) - Pow2(k)) == x - x % Pow2(k)
  {
    hide And, Pow2;
    HighMaskLow(x, w, k);
  }

  lemma {:induction false} HighMaskLow(x: nat, w: nat, k: nat)
    requires k <= w && x < Pow2(w)
    ensures Pow2(k) <= Pow2(w)
    ensures And(x, Pow2(w) - Pow2(k)) == x - Low(x, Pow2(k))
  {
    hide And, Pow2, Low;
    Pow2Mono(k, w);
    if k == 0 {
      AllOnes(x, w);
      PowZero();
      LowOne(x);
    } else {
      PowStep(w - 1);
      PowStep(k - 1);
      HighMaskLow(x / 2, w - 1, k - 1);
      HighMaskStep(x, Pow2(w - 1), Pow2(k - 1), Pow2(w), Pow2(k));
    }
  }

  lemma PowZero()
    ensures Pow2(0) == 1
  {
  }

  lemma LowOne(x: nat)
    ensures Low(x, 1) == 0
  {
  }

  lemma HighMaskStep(x: nat, q: nat, p: nat, q': nat, p': nat)
    requires 0 < p <= q && And(x / 2, q - p) == x / 2 - Low(x / 2, p) && q' == 2 * q && p' == 2 * p
    ensures And(x, q' - p') == x - Low(x, p')
  {
    hide And;
    AndEven(x, q - p, q' - p');
    HalfMod(x, p);
    hide Low;
  }

  lemma AndEven(x: nat, y: nat, z: nat)
    requires z == 2 * y
    ensures And(x, z) == 2 * And(x / 2, y)
  {
  }

  lemma LowMaskStep(x: nat, p: nat)
    requires p > 0
    ensures And(x, 2 * p - 1) == 2 * And(x / 2, p - 1) + x % 2
  {
    assert (2 * p - 1) / 2 == p - 1 && (2 * p - 1) % 2 == 1;
  }

  lemma HalfMod(x: nat, p: nat)
    requires p > 0
    ensures x % (2 * p) == 2 * (x / 2 % p) + x % 2
  {
    var q, r := x / 2 / p, x / 2 % p;
    assert x == 2 * (q * p + r) + x % 2;
    assert x == q * (2 * p) + (2 * r + x % 2);
    DivModUnique(x, 2 * p, q, 2 * r + x % 2);
  }

  lemma {:induction false} AllOnes(x: nat, w: nat)
    requires x < Pow2(w)
    ensures And(x, Pow2(w) - 1) == x
  {
    if x > 0 {
      assert (Pow2(w) - 1) / 2 == Pow2(w - 1) - 1;
      AllOnes(x / 2, w - 1);
    }
  }

  lemma {:induction false} LowMask(x: nat, k: nat)
    ensures And(x, Pow2(k) - 1) == x % Pow2(k)
  {
    if k == 0 {
      assert Pow2(0) == 1;
      assert And(x, 0) == 0;
    } else {
      LowMaskStep(x, Pow2(k - 1));
      LowMask(x / 2, k - 1);
      HalfMod(x, Pow2(k - 1));
    }
  }

  lemma SmallMod(x: nat, m: nat)
    requires x < m
    ensures x % m == x && x / m == 0
  {
    DivModUnique(x, m, 0, x);
  }

  lemma {:induction false} SingleBit(x: nat, k: nat)
    ensures And(x, Pow2(k)) == if Bit(x, k) then Pow2(k) else 0
  {
    if x == 0 {
      ZeroBit(k);
    } else if k == 0 {
      assert And(x / 2, Pow2(k) / 2) == 0;
    } else {
      SingleBit(x / 2, k - 1);
    }
  }
}
