/** fmin and fmax: NaN is missing data, and -0 lies below +0. */
module MinMax {
  import opened Float
  import opened Classify

  function FMin(f: Format, x: nat, y: nat): nat {
    if FpIsNan(f, x) then y
    else if FpIsNan(f, y) then x
    else if SignField(f, x) != SignField(f, y) then (if SignField(f, x) != 0 then x else y)
    else if Less(f, x, y) then x else y
  }

  function FMax(f: Format, x: nat, y: nat): nat {
    if FpIsNan(f, x) then y
    else if FpIsNan(f, y) then x
    else if SignField(f, x) != SignField(f, y) then (if SignField(f, x) != 0 then y else x)
    else if Less(f, x, y) then y else x
  }

  /** A total order on the patterns that are not NaN: by value, with -0 just below +0. */
  function Key(f: Format, b: nat): int {
    var c: int := Code(f, b);
    if Negative(f, b) then -1 - c else c
  }

  lemma KeyOrder(f: Format, x: nat, y: nat)
    ensures Key(f, x) == Key(f, y) <==> x == y
    ensures Value(f, x) < Value(f, y) ==> Key(f, x) < Key(f, y)
    ensures Key(f, x) < Key(f, y) ==>
              Value(f, x) < Value(f, y) || (Value(f, x) == Value(f, y) == 0 && Negative(f, x) && !Negative(f, y))
  {
    MagOrder(f.P(), Code(f, x), Code(f, y));
    MagAtLeast(f.P(), Code(f, x));
    MagAtLeast(f.P(), Code(f, y));
  }

  /** On numbers fmin and fmax are the smaller and the greater argument in that order, bit for bit. */
  lemma PickedByKey(f: Format, x: nat, y: nat)
    requires f.Valid() && IsPattern(f, x) && IsPattern(f, y) && !IsNaN(f, x) && !IsNaN(f, y)
    ensures FMin(f, x, y) == if Key(f, x) <= Key(f, y) then x else y
    ensures FMax(f, x, y) == if Key(f, x) <= Key(f, y) then y else x
    ensures multiset{FMin(f, x, y), FMax(f, x, y)} == multiset{x, y}
  {
    MacrosAgree(f, x);
    MacrosAgree(f, y);
    Fields(f, x);
    Fields(f, y);
    KeyOrder(f, x, y);
    KeyOrder(f, y, x);
    hide Mag, FpIsNan, SignField;
  }

  lemma NaNIsMissing(f: Format, x: nat, y: nat)
    requires f.Valid() && IsPattern(f, x) && IsPattern(f, y)
    ensures IsNaN(f, x) ==> FMin(f, x, y) == y == FMax(f, x, y)
    ensures !IsNaN(f, x) && IsNaN(f, y) ==> FMin(f, x, y) == x == FMax(f, x, y)
  {
    MacrosAgree(f, x);
    MacrosAgree(f, y);
  }

  // ----- Reductions in any shape

  /** A nest of calls over some arguments. */
  datatype Nest = Arg(b: nat) | Pair(left: Nest, right: Nest)

  function Args(n: Nest): set<nat> {
    match n
    case Arg(b) => {b}
    case Pair(l, r) => Args(l) + Args(r)
  }

  function EvalMin(f: Format, n: Nest): nat {
    match n
    case Arg(b) => b
    case Pair(l, r) => FMin(f, EvalMin(f, l), EvalMin(f, r))
  }

  function EvalMax(f: Format, n: Nest): nat {
    match n
    case Arg(b) => b
    case Pair(l, r) => FMax(f, EvalMax(f, l), EvalMax(f, r))
  }

  ghost predicate Patterns(f: Format, s: set<nat>) {
    forall b :: b in s ==> IsPattern(f, b)
  }

  /** r is the least (or greatest) number of s; a NaN only if s holds nothing else. */
  ghost predicate IsLeast(f: Format, s: set<nat>, r: nat) {
    && r in s && (IsNaN(f, r) ==> forall b :: b in s ==> IsNaN(f, b))
    && forall b :: b in s && !IsNaN(f, b) ==> Key(f, r) <= Key(f, b)
  }

  ghost predicate IsGreatest(f: Format, s: set<nat>, r: nat) {
    && r in s && (IsNaN(f, r) ==> forall b :: b in s ==> IsNaN(f, b))
    && forall b :: b in s && !IsNaN(f, b) ==> Key(f, b) <= Key(f, r)
  }

  lemma {:induction false} EvalMinIsLeast(f: Format, n: Nest)
    requires f.Valid() && Patterns(f, Args(n))
    ensures IsLeast(f, Args(n), EvalMin(f, n))
  {
    match n
    case Arg(b) =>
    case Pair(l, r) =>
      EvalMinIsLeast(f, l);
      EvalMinIsLeast(f, r);
      var x, y := EvalMin(f, l), EvalMin(f, r);
      NaNIsMissing(f, x, y);
      if !IsNaN(f, x) && !IsNaN(f, y) { PickedByKey(f, x, y); }
      hide Key, FMin;
  }

  lemma {:induction false} EvalMaxIsGreatest(f: Format, n: Nest)
    requires f.Valid() && Patterns(f, Args(n))
    ensures IsGreatest(f, Args(n), EvalMax(f, n))
  {
    match n
    case Arg(b) =>
    case Pair(l, r) =>
      EvalMaxIsGreatest(f, l);
      EvalMaxIsGreatest(f, r);
      var x, y := EvalMax(f, l), EvalMax(f, r);
      NaNIsMissing(f, x, y);
      if !IsNaN(f, x) && !IsNaN(f, y) { PickedByKey(f, x, y); }
      hide Key, FMax;
  }

  /** The numbers among the arguments. */
  function Numbers(f: Format, s: set<nat>): set<nat> {
    set b | b in s && !IsNaN(f, b)
  }

  /** Any two nests over the same numbers, however ordered, grouped or repeated, and whatever NaNs are mixed in,
    * evaluate to the same pattern.
    */
  lemma OrderDoesNotMatter(f: Format, n: Nest, m: Nest)
    requires f.Valid() && Patterns(f, Args(n)) && Patterns(f, Args(m))
    requires Numbers(f, Args(n)) == Numbers(f, Args(m)) != {}
    ensures EvalMin(f, n) == EvalMin(f, m) && EvalMax(f, n) == EvalMax(f, m)
    ensures !IsNaN(f, EvalMin(f, n)) && !IsNaN(f, EvalMax(f, n))
  {
    EvalMinIsLeast(f, n);
    EvalMinIsLeast(f, m);
    EvalMaxIsGreatest(f, n);
    EvalMaxIsGreatest(f, m);
    var some :| some in Numbers(f, Args(n));
    assert some in Numbers(f, Args(m));
    var a, b, c, d := EvalMin(f, n), EvalMin(f, m), EvalMax(f, n), EvalMax(f, m);
    assert a in Numbers(f, Args(n)) && b in Numbers(f, Args(m)) && c in Numbers(f, Args(n)) && d in Numbers(f, Args(m));
    KeyOrder(f, a, b);
    KeyOrder(f, c, d);
  }
}
