/** The va_start and va_arg macros of stdarg.h and tccdefs.h. */
module VarArgs {
  import opened Bits

  datatype Target = I386 | Arm | RiscV32 | RiscV64 | Win64

  /** Bits in an address. */
  function Width(t: Target): nat { if t == RiscV64 || t == Win64 then 64 else 32 }

  function SlotLog(t: Target): nat { if t == RiscV64 || t == Win64 then 3 else 2 }

  /** Bytes in an argument slot. */
  function Slot(t: Target): nat { Pow2(SlotLog(t)) }

  lemma SlotSizes(t: Target)
    ensures Slot(t) == if t == RiscV64 || t == Win64 then 8 else 4
  {
    assert Pow2(2) == 4 && Pow2(3) == 8;
  }

  // ----- What the caller lays out (the assumed calling convention)

  /** A variadic argument: 2^alignLog is the alignment of its type, bytes its object representation. */
  datatype Argument = Argument(alignLog: nat, bytes: seq<nat>)

  /** r is the least multiple of m that is not below x. */
  predicate IsRoundUp(x: nat, m: nat, r: nat)
    requires m > 0
  {
    r % m == 0 && x <= r < x + m
  }

  predicate Holds(mem: seq<nat>, at: nat, bytes: seq<nat>) {
    at + |bytes| <= |mem| && mem[at..at + |bytes|] == bytes
  }

  function LittleEndian(bytes: seq<nat>): nat {
    if bytes == [] then 0 else bytes[0] + 0x100 * LittleEndian(bytes[1..])
  }

  /** Arguments that are passed as a pointer to a copy. */
  predicate ByReference(t: Target, size: nat) {
    match t
    case Win64 => size !in {0, 1, 2, 4, 8}
    case RiscV32 | RiscV64 => size > 2 * Slot(t)
    case _ => false
  }

  /** Targets that skip slots to align an argument. */
  predicate Aligns(t: Target) { t.Arm? || t.RiscV32? || t.RiscV64? }

  /** The argument takes the slots from start to next, and its bytes are at address at. */
  predicate Placed(t: Target, mem: seq<nat>, a: Argument, start: nat, at: nat, next: nat) {
    && start % Slot(t) == 0
    && Holds(mem, at, a.bytes)
    && if ByReference(t, |a.bytes|) then
         next == start + Slot(t) && next <= |mem| && LittleEndian(mem[start..next]) == at
       else
         && (if Aligns(t) then IsRoundUp(start, Pow2(a.alignLog), at) else at == start)
         && (if t.Win64? then next == start + Slot(t) else IsRoundUp(at + |a.bytes|, Slot(t), next))
  }

  /** Where an argument is: the slots from start to next, its bytes at address at. */
  datatype Place = Place(start: nat, at: nat, next: nat)

  /** The caller has laid out the arguments in memory, one after the other, from start to end. */
  predicate LaidOut(t: Target, mem: seq<nat>, args: seq<Argument>, places: seq<Place>, start: nat, end: nat) {
    && |places| == |args|
    && if args == [] then start == end && start % Slot(t) == 0
       else
         && places[0].start == start && Placed(t, mem, args[0], start, places[0].at, places[0].next)
         && LaidOut(t, mem, args[1..], places[1..], places[0].next, end)
  }

  // ----- Mask arithmetic in address-sized words

  function AddWord(w: nat, x: nat, y: nat): nat { (x + y) % Pow2(w) }

  function SubWord(w: nat, x: nat, y: nat): nat { (x - y) % Pow2(w) }

  /** (x + (2^k - 1)) & ~(2^k - 1) */
  function MaskUp(w: nat, x: nat, k: nat): nat
    requires k <= w
  {
    Pow2Mono(k, w);
    And(AddWord(w, x, Pow2(k) - 1), Not(w, Pow2(k) - 1))
  }

  lemma NextMultipleFits(q: int, n: int, m: int)
    requires m > 0 && q * m < n * m
    ensures q * m + m <= n * m
  {
    if q >= n { MulOrder(n, q, m); }
    MulOrder(q + 1, n, m);
    assert (q + 1) * m == q * m + m;
  }

  lemma MultipleBelow(r: nat, k: nat, w: nat)
    requires k <= w && r % Pow2(k) == 0 && r < Pow2(w)
    ensures r + Pow2(k) <= Pow2(w)
  {
    hide Pow2;
    Pow2Divides(k, w);
    NextMultipleFits(r / Pow2(k), Pow2(w - k), Pow2(k));
  }

  lemma FloorIs(y: nat, m: nat, r: nat)
    requires m > 0 && r % m == 0 && r <= y < r + m
    ensures y - y % m == r
  {
    assert r == r / m * m;
    DivModUnique(y, m, r / m, y - r);
  }

  /** The mask rounds up to the next multiple as long as that multiple is an address. */
  lemma MaskUpIsRoundUp(w: nat, x: nat, k: nat, r: nat)
    requires k <= w && IsRoundUp(x, Pow2(k), r) && r < Pow2(w)
    ensures MaskUp(w, x, k) == r
  {
    hide Pow2, And;
    var m := Pow2(k);
    var y := x + (m - 1);
    Pow2Mono(k, w);
    MultipleBelow(r, k, w);
    SmallMod(y, Pow2(w));
    HighMask(y, w, k);
    FloorIs(y, m, r);
  }

  /** Rounding the end of an object that starts at a multiple is rounding its size. */
  lemma RoundUpShift(at: nat, size: nat, m: nat, next: nat)
    requires m > 0 && at % m == 0 && IsRoundUp(at + size, m, next)
    ensures next >= at && IsRoundUp(size, m, next - at)
  {
    var p, q := at / m, next / m;
    assert at == p * m && next == q * m;
    assert next - at == (q - p) * m by { DistributeMinus(q, p, m); }
    MultipleMod(q - p, m);
  }

  /** Aligning a slot boundary gives a slot boundary. */
  lemma AlignKeepsSlot(start: nat, k: nat, s: nat, at: nat)
    requires start % Pow2(s) == 0 && IsRoundUp(start, Pow2(k), at)
    ensures at % Pow2(s) == 0
  {
    if k <= s {
      // start is already aligned
      Pow2Divides(k, s);
      MultipleOfMultiple(start, Pow2(k), Pow2(s - k));
      RoundUpSelf(start, Pow2(k), at);
    } else {
      Pow2Divides(s, k);
      MultipleOfMultiple(at, Pow2(s), Pow2(k - s));
    }
  }

  lemma MultipleOfMultiple(x: nat, m: nat, n: nat)
    requires m > 0 && n > 0 && n * m > 0 && x % (n * m) == 0
    ensures x % m == 0
  {
    var q := x / (n * m);
    assert x == q * (n * m) == (q * n) * m;
    MultipleMod(q * n, m);
  }

  lemma RoundUpSelf(x: nat, m: nat, r: nat)
    requires m > 0 && x % m == 0 && IsRoundUp(x, m, r)
    ensures r == x
  {
    RoundUpShift(x, 0, m, r);
    SmallMod(r - x, m);
  }

  lemma {:induction false} LaidOutGrows(t: Target, mem: seq<nat>, args: seq<Argument>, places: seq<Place>,
                                        start: nat, end: nat)
    requires LaidOut(t, mem, args, places, start, end)
    ensures start <= end
    decreases |args|
  {
    if args != [] {
      LaidOutGrows(t, mem, args[1..], places[1..], places[0].next, end);
    }
  }

  /** (size + (W - 1)) & ~(W - 1) is what an argument advances past its aligned start. */
  lemma StepIsRounded(t: Target, at: nat, size: nat, next: nat)
    requires at % Slot(t) == 0 && IsRoundUp(at + size, Slot(t), next) && next < Pow2(Width(t))
    ensures at + MaskUp(Width(t), size, SlotLog(t)) == next
  {
    RoundUpShift(at, size, Slot(t), next);
    MaskUpIsRoundUp(Width(t), size, SlotLog(t), next - at);
  }

  class VaList {
    const target: Target
    const mem: seq<nat>
    var ap: nat

    constructor (target: Target, mem: seq<nat>)
      ensures this.target == target && this.mem == mem
    {
      this.target, this.mem, ap := target, mem, 0;
    }

    /** va_start on I386 and Arm: the first slot after the last named parameter. */
    method Start(last: nat, size: nat, ghost start: nat)
      requires target.I386? || target.Arm?
      requires last % 4 == 0 && IsRoundUp(last + size, 4, start) && start < Pow2(32)
      modifies this
      ensures ap == start
    {
      hide Pow2, MaskUp, Slot;
      SlotSizes(target);
      StepIsRounded(target, last, size, start);
      SmallMod(start, Pow2(32));
      ap := AddWord(32, last, MaskUp(32, size, 2));
    }

    /** I386: ap += s, then the argument is at ap - s. */
    method ArgInSlots(size: nat, ghost a: Argument, ghost at: nat, ghost next: nat) returns (bytes: seq<nat>, p: nat)
      requires target.I386? && size == |a.bytes| && Placed(target, mem, a, ap, at, next) && next < Pow2(32)
      modifies this
      ensures ap == next && p == at && bytes == a.bytes
    {
      hide Pow2, MaskUp;
      StepIsRounded(target, at, size, next);
      SmallMod(next, Pow2(32));
      SmallMod(at, Pow2(32));
      var step := MaskUp(32, size, 2);
      ap := AddWord(32, ap, step);
      p := SubWord(32, ap, step);
      bytes := mem[p..p + size];
    }

    /** Arm, and the arguments RISC-V passes by value: align ap, add the size, round up to a slot;
      * the argument is the rounded size below.
      */
    method ArgAligned(size: nat, alignLog: nat, ghost a: Argument, ghost at: nat, ghost next: nat)
      returns (bytes: seq<nat>, p: nat)
      requires Aligns(target) && !ByReference(target, size)
      requires size == |a.bytes| && alignLog == a.alignLog <= Width(target)
      requires Placed(target, mem, a, ap, at, next) && next < Pow2(Width(target))
      modifies this
      ensures ap == next && p == at && bytes == a.bytes
    {
      var w, s := Width(target), SlotLog(target);
      hide Pow2, MaskUp;
      AlignKeepsSlot(ap, alignLog, s, at);
      MaskUpIsRoundUp(w, ap, alignLog, at);
      SmallMod(at + size, Pow2(w));
      MaskUpIsRoundUp(w, at + size, s, next);
      StepIsRounded(target, at, size, next);
      SmallMod(at, Pow2(w));
      ap := MaskUp(w, AddWord(w, MaskUp(w, ap, alignLog), size), s);
      p := SubWord(w, ap, MaskUp(w, size, s));
      bytes := mem[p..p + size];
    }

    /** The large arguments of RISC-V and Win64: the slot holds a pointer to the argument. */
    method ArgByReference(size: nat, ghost a: Argument, ghost at: nat, ghost next: nat)
      returns (bytes: seq<nat>, p: nat)
      requires ByReference(target, size) && size == |a.bytes|
      requires Placed(target, mem, a, ap, at, next) && next < Pow2(Width(target))
      modifies this
      ensures ap == next && p == at && bytes == a.bytes
    {
      var w := Width(target);
      SmallMod(next, Pow2(w));
      SmallMod(ap, Pow2(w));
      hide Pow2;
      ap := AddWord(w, ap, Slot(target));
      var slot := SubWord(w, ap, Slot(target));
      p := LittleEndian(mem[slot..slot + Slot(target)]);
      bytes := mem[p..p + size];
    }

    /** Win64: sizes of 1, 2, 4 and 8 are read from the slot itself. */
    method ArgWin64(size: nat, ghost a: Argument, ghost at: nat, ghost next: nat) returns (bytes: seq<nat>, p: nat)
      requires target.Win64? && size == |a.bytes|
      requires Placed(target, mem, a, ap, at, next) && next < Pow2(64)
      modifies this
      ensures ap == next && p == at && bytes == a.bytes
    {
      hide Pow2, And, Slot;
      SlotSizes(target);
      Win64Test(size);
      if size > 8 || And(size, SubWord(64, size, 1)) != 0 {
        bytes, p := ArgByReference(size, a, at, next);
      } else {
        SmallMod(next, Pow2(64));
        SmallMod(ap, Pow2(64));
        ap := AddWord(64, ap, 8);
        p := SubWord(64, ap, 8);
        bytes := mem[p..p + size];
      }
    }

    /** va_arg(ap, type) for a type of the given size and alignment. */
    method VaArg(size: nat, alignLog: nat, ghost a: Argument, ghost at: nat, ghost next: nat)
      returns (bytes: seq<nat>, p: nat)
      requires size == |a.bytes| && alignLog == a.alignLog <= Width(target)
      requires Placed(target, mem, a, ap, at, next) && next < Pow2(Width(target))
      modifies this
      ensures ap == next && p == at && bytes == a.bytes
    {
      hide Pow2, MaskUp;
      match target
      case I386 => bytes, p := ArgInSlots(size, a, at, next);
      case Win64 => bytes, p := ArgWin64(size, a, at, next);
      case Arm => bytes, p := ArgAligned(size, alignLog, a, at, next);
      case RiscV32 | RiscV64 =>
        RiscVTest(target, size);
        // __va_reg_size is __riscv_xlen >> 3
        if size > 2 * (Width(target) / 8) {
          bytes, p := ArgByReference(size, a, at, next);
        } else {
          bytes, p := ArgAligned(size, alignLog, a, at, next);
        }
    }

    /** Repeated va_arg over any argument list below the top of the address space: the k-th call reads the k-th
      * argument where the caller put it, and the list pointer ends at a slot boundary, the end of the list.
      */
    method Walk(args: seq<Argument>, ghost places: seq<Place>, ghost end: nat)
      returns (values: seq<seq<nat>>, addresses: seq<nat>)
      requires LaidOut(target, mem, args, places, ap, end) && end < Pow2(Width(target))
      requires forall k :: 0 <= k < |args| ==> args[k].alignLog <= Width(target)
      modifies this
      ensures |values| == |addresses| == |args|
      ensures forall k :: 0 <= k < |args| ==> values[k] == args[k].bytes && addresses[k] == places[k].at
      ensures ap == end && ap % Slot(target) == 0
    {
      hide Pow2, Slot;
      values, addresses := [], [];
      var k := 0;
      while k < |args|
        invariant k <= |args| && |values| == |addresses| == k
        invariant forall j :: 0 <= j < k ==> values[j] == args[j].bytes && addresses[j] == places[j].at
        invariant LaidOut(target, mem, args[k..], places[k..], ap, end)
      {
        ghost var place := places[k];
        assert args[k..][0] == args[k] && places[k..][0] == place;
        assert args[k..][1..] == args[k + 1..] && places[k..][1..] == places[k + 1..];
        LaidOutGrows(target, mem, args[k + 1..], places[k + 1..], place.next, end);
        var v, p := VaArg(|args[k].bytes|, args[k].alignLog, args[k], place.at, place.next);
        values, addresses := values + [v], addresses + [p];
        k := k + 1;
      }
    }
  }

  /** The bytes of the argument area that va_arg reads: the argument itself, or the pointer to it. */
  function ReadFrom(t: Target, a: Argument, p: Place): nat {
    if ByReference(t, |a.bytes|) then p.start else p.at
  }

  function ReadTo(t: Target, a: Argument, p: Place): nat {
    if ByReference(t, |a.bytes|) then p.start + Slot(t) else p.at + |a.bytes|
  }

  lemma ReadWithinSlots(t: Target, mem: seq<nat>, a: Argument, p: Place)
    requires Placed(t, mem, a, p.start, p.at, p.next)
    ensures p.start <= ReadFrom(t, a, p) <= ReadTo(t, a, p) <= p.next
  {
    SlotSizes(t);
  }

  /** Every argument of a list lies between the list's start and end, slots and all. */
  lemma {:induction false} PlaceInList(t: Target, mem: seq<nat>, args: seq<Argument>, places: seq<Place>,
                                       start: nat, end: nat, k: nat)
    requires LaidOut(t, mem, args, places, start, end) && k < |args|
    ensures Placed(t, mem, args[k], places[k].start, places[k].at, places[k].next)
    ensures start <= places[k].start && places[k].next <= end
    decreases |args|
  {
    ReadWithinSlots(t, mem, args[0], places[0]);
    LaidOutGrows(t, mem, args[1..], places[1..], places[0].next, end);
    if k > 0 {
      PlaceInList(t, mem, args[1..], places[1..], places[0].next, end, k - 1);
    }
  }

  lemma {:induction false} PlacesInOrder(t: Target, mem: seq<nat>, args: seq<Argument>, places: seq<Place>,
                                         start: nat, end: nat, i: nat, j: nat)
    requires LaidOut(t, mem, args, places, start, end) && i < j < |args|
    ensures places[i].next <= places[j].start
    decreases |args|
  {
    if i > 0 {
      PlacesInOrder(t, mem, args[1..], places[1..], places[0].next, end, i - 1, j - 1);
    } else {
      PlaceInList(t, mem, args[1..], places[1..], places[0].next, end, j - 1);
    }
  }

  /** Of one list, the reads for the i-th and the j-th argument touch no common byte, and both lie in its area. */
  lemma PlacementsApart(t: Target, mem: seq<nat>, args: seq<Argument>, places: seq<Place>, start: nat, end: nat,
                   i: nat, j: nat)
    requires LaidOut(t, mem, args, places, start, end) && i < j < |args|
    ensures start <= ReadFrom(t, args[i], places[i]) && ReadTo(t, args[i], places[i]) <= ReadFrom(t, args[j], places[j])
    ensures ReadTo(t, args[j], places[j]) <= end
  {
    PlaceInList(t, mem, args, places, start, end, i);
    PlaceInList(t, mem, args, places, start, end, j);
    PlacesInOrder(t, mem, args, places, start, end, i, j);
    ReadWithinSlots(t, mem, args[i], places[i]);
    ReadWithinSlots(t, mem, args[j], places[j]);
  }

  /** On the targets that align, an argument read from the area is aligned for its type. */
  lemma ReadAligned(t: Target, mem: seq<nat>, args: seq<Argument>, places: seq<Place>, start: nat, end: nat, k: nat)
    requires LaidOut(t, mem, args, places, start, end) && k < |args|
    requires Aligns(t) && !ByReference(t, |args[k].bytes|)
    ensures places[k].at % Pow2(args[k].alignLog) == 0
  {
    PlaceInList(t, mem, args, places, start, end, k);
  }

  /** A list in memory can be read in one way only. */
  lemma {:induction false} PlacesUnique(t: Target, mem: seq<nat>, args: seq<Argument>, start: nat,
                                        p: seq<Place>, end: nat, p': seq<Place>, end': nat)
    requires LaidOut(t, mem, args, p, start, end) && LaidOut(t, mem, args, p', start, end')
    ensures p == p' && end == end'
    decreases |args|
  {
    if args != [] {
      PlaceUnique(t, mem, args[0], p[0], p'[0]);
      PlacesUnique(t, mem, args[1..], p[0].next, p[1..], end, p'[1..], end');
      assert p == [p[0]] + p[1..] && p' == [p'[0]] + p'[1..];
    }
  }

  lemma PlaceUnique(t: Target, mem: seq<nat>, a: Argument, p: Place, p': Place)
    requires p.start == p'.start
    requires Placed(t, mem, a, p.start, p.at, p.next) && Placed(t, mem, a, p'.start, p'.at, p'.next)
    ensures p == p'
  {
    if !ByReference(t, |a.bytes|) {
      if Aligns(t) { RoundUpUnique(p.start, Pow2(a.alignLog), p.at, p'.at); }
      if !t.Win64? { RoundUpUnique(p.at + |a.bytes|, Slot(t), p.next, p'.next); }
    }
  }

  lemma RoundUpUnique(x: nat, m: nat, r: nat, r': nat)
    requires m > 0 && IsRoundUp(x, m, r) && IsRoundUp(x, m, r')
    ensures r == r'
  {
    assert (r / m - r' / m) * m == r - r' by { DistributeMinus(r / m, r' / m, m); }
    SmallMultiple(r / m - r' / m, m);
  }

  // ----- Every list can be laid out

  function AlignUp(x: nat, m: nat): (r: nat)
    requires m > 0
    ensures IsRoundUp(x, m, r)
  {
    var q := (x + m - 1) / m;
    MultipleMod(q, m);
    assert x + m - 1 == q * m + (x + m - 1) % m;
    q * m
  }

  /** x in n bytes. */
  function Encode(x: nat, n: nat): (s: seq<nat>)
    ensures |s| == n
  {
    if n == 0 then [] else [x % 0x100] + Encode(x / 0x100, n - 1)
  }

  lemma {:induction false} EncodeDecodes(x: nat, n: nat)
    requires x < Pow2(8 * n)
    ensures LittleEndian(Encode(x, n)) == x
  {
    if n == 0 {
      assert Pow2(0) == 1;
    } else {
      Pow2Add(8, 8 * (n - 1));
      assert Pow2(8) == 0x100;
      EncodeDecodes(x / 0x100, n - 1);
      assert Encode(x, n)[1..] == Encode(x / 0x100, n - 1);
    }
  }

  function Padding(n: nat): (s: seq<nat>)
    ensures |s| == n
  {
    seq(n, _ => 0)
  }

  function PlaceFor(t: Target, a: Argument, start: nat, copies: nat): (p: Place)
    ensures p.start == start
  {
    SlotSizes(t);
    if ByReference(t, |a.bytes|) then Place(start, copies, start + Slot(t))
    else
      var at := if Aligns(t) then AlignUp(start, Pow2(a.alignLog)) else start;
      Place(start, at, if t.Win64? then start + Slot(t) else AlignUp(at + |a.bytes|, Slot(t)))
  }

  /** The slots of one argument. */
  function SlotBytes(t: Target, a: Argument, p: Place): (s: seq<nat>)
    requires p == PlaceFor(t, a, p.start, p.at)
    ensures p.start + |s| == p.next
  {
    SlotSizes(t);
    if ByReference(t, |a.bytes|) then Encode(p.at, Slot(t))
    else Padding(p.at - p.start) + a.bytes + Padding(p.next - p.at - |a.bytes|)
  }

  /** The bytes of the argument area; copies is where the arguments passed by reference are copied to. */
  function Area(t: Target, args: seq<Argument>, start: nat, copies: nat): seq<nat>
    decreases |args|
  {
    if args == [] then [] else
      var p := PlaceFor(t, args[0], start, copies);
      SlotBytes(t, args[0], p) + Area(t, args[1..], p.next, copies + |CopyOf(t, args[0])|)
  }

  function CopyOf(t: Target, a: Argument): seq<nat> { if ByReference(t, |a.bytes|) then a.bytes else [] }

  function Copies(t: Target, args: seq<Argument>): seq<nat> {
    if args == [] then [] else CopyOf(t, args[0]) + Copies(t, args[1..])
  }

  /** The argument area is as long wherever the copies are. */
  lemma {:induction false} AreaLength(t: Target, args: seq<Argument>, start: nat, copies: nat, copies': nat)
    ensures |Area(t, args, start, copies)| == |Area(t, args, start, copies')|
    decreases |args|
  {
    hide PlaceFor, SlotBytes, Slot;
    if args != [] {
      var a := |CopyOf(t, args[0])|;
      PlaceForFacts(t, args[0], start, copies);
      PlaceForFacts(t, args[0], start, copies');
      NextApart(t, args[0], start, copies, copies');
      AreaLength(t, args[1..], PlaceFor(t, args[0], start, copies).next, copies + a, copies' + a);
    }
  }

  lemma NextApart(t: Target, a: Argument, start: nat, copies: nat, copies': nat)
    ensures PlaceFor(t, a, start, copies).next == PlaceFor(t, a, start, copies').next
  {
    hide Pow2, AlignUp;
  }

  lemma PlaceForFacts(t: Target, a: Argument, start: nat, copies: nat)
    ensures var p := PlaceFor(t, a, start, copies);
            p == PlaceFor(t, a, start, p.at) && (ByReference(t, |a.bytes|) ==> p.at == copies && |a.bytes| > 0)
  {
    hide Pow2, AlignUp;
  }

  lemma HoldsParts(mem: seq<nat>, at: nat, s: seq<nat>, s': seq<nat>)
    requires Holds(mem, at, s + s')
    ensures Holds(mem, at, s) && Holds(mem, at + |s|, s')
  {
    assert s == (s + s')[..|s|] && s' == (s + s')[|s|..];
  }

  lemma PointerPlaced(t: Target, mem: seq<nat>, a: Argument, p: Place)
    requires p == PlaceFor(t, a, p.start, p.at) && p.start % Slot(t) == 0 && ByReference(t, |a.bytes|)
    requires Holds(mem, p.start, SlotBytes(t, a, p)) && Holds(mem, p.at, a.bytes) && p.at < Pow2(Width(t))
    ensures Placed(t, mem, a, p.start, p.at, p.next) && p.next % Slot(t) == 0
  {
    hide Pow2, AlignUp, Encode, LittleEndian;
    PointerDecodes(t, p.at);
    SlotSizes(t);
  }

  lemma PointerDecodes(t: Target, x: nat)
    requires x < Pow2(Width(t))
    ensures LittleEndian(Encode(x, Slot(t))) == x
  {
    hide Pow2, Encode, LittleEndian;
    SlotSizes(t);
    EncodeDecodes(x, Slot(t));
  }

  lemma ValuePlaced(t: Target, mem: seq<nat>, a: Argument, p: Place)
    requires p == PlaceFor(t, a, p.start, p.at) && p.start % Slot(t) == 0 && !ByReference(t, |a.bytes|)
    requires Holds(mem, p.start, SlotBytes(t, a, p))
    ensures Placed(t, mem, a, p.start, p.at, p.next) && p.next % Slot(t) == 0
  {
    hide Pow2, AlignUp, Holds;
    SlotSizes(t);
    var front, back := Padding(p.at - p.start), Padding(p.next - p.at - |a.bytes|);
    HoldsParts(mem, p.start, front + a.bytes, back);
    HoldsParts(mem, p.start, front, a.bytes);
  }

  lemma {:induction false} LayoutFrom(t: Target, mem: seq<nat>, args: seq<Argument>, start: nat, copies: nat)
    returns (places: seq<Place>)
    requires start % Slot(t) == 0 && |mem| <= Pow2(Width(t))
    requires Holds(mem, start, Area(t, args, start, copies)) && Holds(mem, copies, Copies(t, args))
    ensures LaidOut(t, mem, args, places, start, start + |Area(t, args, start, copies)|)
    decreases |args|
  {
    hide Pow2, Slot, PlaceFor, SlotBytes, ByReference, Placed, Holds, LaidOut, Copies, CopyOf;
    if args == [] {
      places := [];
      NothingLaidOut(t, mem, start);
    } else {
      hide Area;
      var p := AreaParts(t, mem, args, start, copies);
      ArgumentPlaced(t, mem, args[0], p, copies);
      var rest := LayoutFrom(t, mem, args[1..], p.next, copies + |CopyOf(t, args[0])|);
      LaidOutCons(t, mem, args, p, rest, p.next + |Area(t, args[1..], p.next, copies + |CopyOf(t, args[0])|)|);
      places := [p] + rest;
    }
  }

  /** Area and copies of a list, split after its first argument. */
  lemma AreaParts(t: Target, mem: seq<nat>, args: seq<Argument>, start: nat, copies: nat) returns (p: Place)
    requires args != []
    requires Holds(mem, start, Area(t, args, start, copies)) && Holds(mem, copies, Copies(t, args))
    ensures p == PlaceFor(t, args[0], start, copies) == PlaceFor(t, args[0], start, p.at)
    ensures Holds(mem, start, SlotBytes(t, args[0], p)) && Holds(mem, copies, CopyOf(t, args[0]))
    ensures Holds(mem, p.next, Area(t, args[1..], p.next, copies + |CopyOf(t, args[0])|))
    ensures Holds(mem, copies + |CopyOf(t, args[0])|, Copies(t, args[1..]))
    ensures start + |Area(t, args, start, copies)|
         == p.next + |Area(t, args[1..], p.next, copies + |CopyOf(t, args[0])|)|
  {
    hide Pow2, Slot, PlaceFor, SlotBytes, Holds, CopyOf;
    p := PlaceFor(t, args[0], start, copies);
    PlaceForFacts(t, args[0], start, copies);
    HoldsParts(mem, start, SlotBytes(t, args[0], p), Area(t, args[1..], p.next, copies + |CopyOf(t, args[0])|));
    HoldsParts(mem, copies, CopyOf(t, args[0]), Copies(t, args[1..]));
  }

  lemma ArgumentPlaced(t: Target, mem: seq<nat>, a: Argument, p: Place, copies: nat)
    requires p == PlaceFor(t, a, p.start, copies) && p == PlaceFor(t, a, p.start, p.at) && p.start % Slot(t) == 0
    requires Holds(mem, p.start, SlotBytes(t, a, p)) && Holds(mem, copies, CopyOf(t, a)) && |mem| <= Pow2(Width(t))
    ensures Placed(t, mem, a, p.start, p.at, p.next) && p.next % Slot(t) == 0
  {
    hide Pow2, Slot, PlaceFor, SlotBytes, Placed;
    PlaceForFacts(t, a, p.start, copies);
    if ByReference(t, |a.bytes|) { PointerPlaced(t, mem, a, p); } else { ValuePlaced(t, mem, a, p); }
  }

  lemma NothingLaidOut(t: Target, mem: seq<nat>, start: nat)
    requires start % Slot(t) == 0
    ensures LaidOut(t, mem, [], [], start, start)
  {
  }

  lemma LaidOutCons(t: Target, mem: seq<nat>, args: seq<Argument>, p: Place, places: seq<Place>, end: nat)
    requires args != [] && Placed(t, mem, args[0], p.start, p.at, p.next)
    requires LaidOut(t, mem, args[1..], places, p.next, end)
    ensures LaidOut(t, mem, args, [p] + places, p.start, end)
  {
    hide Placed;
    assert ([p] + places)[1..] == places;
  }

  /** Any list of arguments that fits below the top of the address space can be laid out from any slot boundary. */
  lemma LayoutExists(t: Target, args: seq<Argument>, start: nat)
    returns (mem: seq<nat>, places: seq<Place>, end: nat)
    requires start % Slot(t) == 0
    requires start + |Area(t, args, start, 0)| + |Copies(t, args)| < Pow2(Width(t))
    ensures LaidOut(t, mem, args, places, start, end) && end < Pow2(Width(t))
  {
    hide Pow2, Slot;
    end := start + |Area(t, args, start, 0)|;
    AreaLength(t, args, start, 0, end);
    var area, copies := Area(t, args, start, end), Copies(t, args);
    mem := Padding(start) + area + copies;
    places := LayoutFrom(t, mem, args, start, end);
  }

  /** The test sizeof(type) > 2 * __va_reg_size: above 8 bytes on RISC-V 32 and above 16 on RISC-V 64. */
  lemma RiscVTest(t: Target, size: nat)
    requires t.RiscV32? || t.RiscV64?
    ensures size > 2 * (Width(t) / 8) <==> ByReference(t, size)
    ensures ByReference(t, size) <==> size > if t.RiscV32? then 8 else 16
  {
    SlotSizes(t);
  }

  /** The test sizeof(t) > 8 || (sizeof(t) & (sizeof(t) - 1)) singles out the sizes passed by reference. */
  lemma Win64Test(size: nat)
    ensures size > 8 || And(size, SubWord(64, size, 1)) != 0 <==> ByReference(Win64, size)
  {
    if 0 < size <= 8 {
      Pow2Mono(4, 64);
      SmallMod(size - 1, Pow2(64));
    }
  }
}
