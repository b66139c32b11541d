/** InterlockedBitTestAndSet, -Reset and -Complement: concurrent operations on a set of bit numbers. */
module BitSet {
  import opened Bits
  import opened Interlocked
  import opened Linearization

  /** Bits per word of the array. */
  const WORD: nat := 32

  datatype BitOp = TestSet(bit: nat) | TestReset(bit: nat) | TestComplement(bit: nat)

  /** 1 << (bit & 31) */
  function Mask(bit: nat): nat {
    Pow2(And(bit, WORD - 1))
  }

  /** The word operation a bit operation is made of. */
  function CallFor(op: BitOp): Call {
    match op
    case TestSet(bit) => Call(bit / WORD, OpOr(Mask(bit)), Reuse)
    case TestReset(bit) =>
      MaskIsBit(bit);
      Call(bit / WORD, OpAnd(Not(WORD, Mask(bit))), Reuse)
    case TestComplement(bit) => Call(bit / WORD, OpXor(Mask(bit)), Reuse)
  }

  /** What the caller gets, from the word operation's result. */
  predicate BitResult(op: BitOp, word: nat) {
    And(word, Mask(op.bit)) != 0
  }

  // ----- The array as a set of bit numbers

  predicate Holds(mem: seq<nat>, bit: nat) {
    bit / WORD < |mem| && Bit(mem[bit / WORD], bit % WORD)
  }

  function Members(mem: seq<nat>): set<nat> {
    set b: nat | b < WORD * |mem| && Holds(mem, b)
  }

  /** The set operation a bit operation stands for. */
  function Update(op: BitOp, s: set<nat>): set<nat> {
    match op
    case TestSet(b) => s + {b}
    case TestReset(b) => s - {b}
    case TestComplement(b) => if b in s then s - {b} else s + {b}
  }

  lemma MaskIsBit(bit: nat)
    ensures Mask(bit) == Pow2(bit % WORD) && Mask(bit) < Pow2(WORD)
  {
    assert Pow2(5) == WORD;
    hide Pow2, And;
    LowMask(bit, 5);
    Pow2Mono(bit % WORD, WORD);
  }

  /** Word index and mask together determine the bit number. */
  lemma AddressInjective(b: nat, b': nat)
    requires b / WORD == b' / WORD && Mask(b) == Mask(b')
    ensures b == b'
  {
    MaskIsBit(b);
    MaskIsBit(b');
    PowBit(b % WORD, b % WORD);
    PowBit(b' % WORD, b % WORD);
  }

  lemma WordDigit(op: BitOp, word: nat, i: nat)
    requires i < WORD
    ensures Bit(Apply(WORD, CallFor(op).op, word), i) <==>
              if i != op.bit % WORD then Bit(word, i)
              else op.TestSet? || (op.TestComplement? && !Bit(word, i))
  {
    var m := Mask(op.bit);
    MaskIsBit(op.bit);
    PowBit(op.bit % WORD, i);
    match op
    case TestSet(_) => OrBit(word, m, i);
    case TestReset(_) => AndBit(word, Not(WORD, m), i); NotBit(WORD, m, i);
    case TestComplement(_) => XorBit(word, m, i);
  }

  /** The word operation performs exactly the set operation: no other bit of the array moves. */
  lemma WordOpIsSetOp(op: BitOp, mem: seq<nat>)
    requires op.bit < WORD * |mem|
    ensures var c := CallFor(op); Members(mem[c.at := Apply(WORD, c.op, mem[c.at])]) == Update(op, Members(mem))
  {
    var c := CallFor(op);
    var mem' := mem[c.at := Apply(WORD, c.op, mem[c.at])];
    forall b: nat | b < WORD * |mem|
      ensures b in Members(mem') <==> b in Update(op, Members(mem))
    {
      if b / WORD == c.at {
        WordDigit(op, mem[c.at], b % WORD);
      }
      assert b % WORD == op.bit % WORD && b / WORD == op.bit / WORD ==> b == op.bit;
    }
    assert forall b :: b in Update(op, Members(mem)) ==> b < WORD * |mem|;
  }

  /** The result of the call is membership before the operation. */
  lemma ResultIsMembership(op: BitOp, mem: seq<nat>)
    requires op.bit < WORD * |mem|
    ensures BitResult(op, mem[op.bit / WORD]) <==> op.bit in Members(mem)
  {
    MaskIsBit(op.bit);
    SingleBit(mem[op.bit / WORD], op.bit % WORD);
  }

  // ----- Runs of bit operations

  ghost predicate IsBitCall(c: Call) {
    exists op :: c == CallFor(op)
  }

  ghost function OpOf(c: Call): BitOp
    requires IsBitCall(c)
    ensures c == CallFor(OpOf(c))
  {
    var op :| c == CallFor(op); op
  }

  lemma OpOfCallFor(op: BitOp)
    ensures IsBitCall(CallFor(op)) && OpOf(CallFor(op)) == op
  {
    AddressInjective(OpOf(CallFor(op)).bit, op.bit);
  }

  /** The set operations of a history, one after the other. */
  ghost function SetAfter(s: set<nat>, es: seq<Effect>): set<nat>
    requires OnlyEffects(es, IsBitCall)
    decreases |es|
  {
    if es == [] then s else Update(OpOf(Last(es).call), SetAfter(s, Front(es)))
  }

  lemma {:induction false} ReplayIsSetAfter(mem: seq<nat>, es: seq<Effect>)
    requires OnlyEffects(es, IsBitCall) && SeenInOrder(WORD, mem, es)
    ensures Members(Replay(WORD, mem, es)) == SetAfter(Members(mem), es)
    decreases |es|
  {
    if es != [] {
      ReplayIsSetAfter(mem, Front(es));
      WordOpIsSetOp(OpOf(Last(es).call), Replay(WORD, mem, Front(es)));
    }
  }

  /** In every interleaving the array stands for the set that the bit operations,
    * in the order of their successful CAS, make of the initial set.
    */
  lemma ArrayIsSet(s0: State, tr: seq<Label>, s: State)
    requires Init(WORD, s0) && Reaches(WORD, s0, tr, s) && OnlyCalls(tr, IsBitCall)
    ensures OnlyEffects(Effects(tr), IsBitCall)
    ensures Members(s.mem) == SetAfter(Members(s0.mem), Effects(tr))
  {
    SequentialHistory(WORD, s0, tr, s);
    EffectsComeFromCalls(WORD, s0, tr, s, IsBitCall);
    ReplayIsSetAfter(s0.mem, Effects(tr));
  }

  /** The k-th operation of the history finds its bit set or clear according to the set before it. */
  lemma EffectFindsMembership(mem: seq<nat>, es: seq<Effect>, k: nat)
    requires OnlyEffects(es, IsBitCall) && SeenInOrder(WORD, mem, es) && k < |es|
    ensures var op := OpOf(es[k].call); BitResult(op, es[k].seen) <==> op.bit in SetAfter(Members(mem), es[..k])
  {
    SeenAt(WORD, mem, es, k);
    ReplayIsSetAfter(mem, es[..k]);
    ResultIsMembership(OpOf(es[k].call), Replay(WORD, mem, es[..k]));
  }

  /** Every completed bit operation answers membership at its place in the history. */
  lemma ReturnIsMembership(s0: State, tr: seq<Label>, s: State, j: nat) returns (k: nat)
    requires Init(WORD, s0) && Reaches(WORD, s0, tr, s) && OnlyCalls(tr, IsBitCall)
    requires j < |tr| && tr[j].Return?
    ensures OnlyEffects(Effects(tr), IsBitCall) && k < |Effects(tr)| && Effects(tr)[k].call == tr[j].call
    ensures IsBitCall(tr[j].call)
    ensures var op := OpOf(tr[j].call);
            BitResult(op, tr[j].result) <==> op.bit in SetAfter(Members(s0.mem), Effects(tr)[..k])
  {
    var h, i := EveryReturn(WORD, s0, tr, s, j);
    PlaceOf(tr, i);
    k := |Effects(tr[..i])|;
    SequentialHistory(WORD, s0, tr, s);
    EffectsComeFromCalls(WORD, s0, tr, s, IsBitCall);
    EffectFindsMembership(s0.mem, Effects(tr), k);
  }

  // ----- Winners

  /** Bit operations that never clear or flip the given bit. */
  ghost function SetsOnly(bit: nat): Call -> bool {
    (c: Call) => IsBitCall(c) && (OpOf(c).bit == bit ==> OpOf(c).TestSet?)
  }

  ghost function FlipsOnly(bit: nat): Call -> bool {
    (c: Call) => IsBitCall(c) && (OpOf(c).bit == bit ==> OpOf(c).TestComplement?)
  }

  /** How many operations of the history are on the given bit. */
  ghost function CountBit(es: seq<Effect>, bit: nat): nat
    requires OnlyEffects(es, IsBitCall)
    decreases |es|
  {
    if es == [] then 0 else CountBit(Front(es), bit) + if OpOf(Last(es).call).bit == bit then 1 else 0
  }

  /** A bit that is only ever set is a member exactly when some operation on it has taken effect. */
  lemma {:induction false} SetOnceStaysSet(s: set<nat>, es: seq<Effect>, bit: nat)
    requires bit !in s && OnlyEffects(es, SetsOnly(bit))
    ensures OnlyEffects(es, IsBitCall)
    ensures bit in SetAfter(s, es) <==> CountBit(es, bit) > 0
    decreases |es|
  {
    if es != [] { SetOnceStaysSet(s, Front(es), bit); }
  }

  /** A bit that is only ever complemented has flipped exactly when an odd number of operations took effect. */
  lemma {:induction false} FlipParity(s: set<nat>, es: seq<Effect>, bit: nat)
    requires OnlyEffects(es, FlipsOnly(bit))
    ensures OnlyEffects(es, IsBitCall)
    ensures (bit in SetAfter(s, es)) != (bit in s) <==> CountBit(es, bit) % 2 == 1
    decreases |es|
  {
    hide CallFor, Mask;
    assert OnlyEffects(es, IsBitCall);
    if es != [] { FlipParity(s, Front(es), bit); }
  }

  /** A bit that is only ever complemented differs from its start exactly when an odd number of calls took effect. */
  lemma FlippedWhenOdd(s0: State, tr: seq<Label>, s: State, bit: nat)
    requires Init(WORD, s0) && Reaches(WORD, s0, tr, s) && OnlyCalls(tr, FlipsOnly(bit))
    ensures OnlyEffects(Effects(tr), IsBitCall)
    ensures (bit in Members(s.mem)) != (bit in Members(s0.mem)) <==> CountBit(Effects(tr), bit) % 2 == 1
  {
    EffectsComeFromCalls(WORD, s0, tr, s, FlipsOnly(bit));
    ArrayIsSet(s0, tr, s);
    FlipParity(Members(s0.mem), Effects(tr), bit);
  }

  /** One for each call on the bit. */
  ghost function BitWeight(bit: nat): Call -> int {
    (c: Call) => if IsBitCall(c) && OpOf(c).bit == bit then 1 else 0
  }

  lemma {:induction false} CountIsWeight(es: seq<Effect>, bit: nat)
    requires OnlyEffects(es, IsBitCall)
    ensures CountBit(es, bit) == Weigh(es, BitWeight(bit))
    decreases |es|
  {
    if es != [] { CountIsWeight(Front(es), bit); }
  }

  /** In terms of completed calls: the bit differs from its start exactly when the completed calls on it and
    * those that took effect without having returned are together odd in number.
    */
  lemma FlippedByCalls(s0: State, tr: seq<Label>, s: State, bit: nat)
    requires Init(WORD, s0) && Reaches(WORD, s0, tr, s) && OnlyCalls(tr, FlipsOnly(bit))
    ensures (bit in Members(s.mem)) != (bit in Members(s0.mem)) <==>
              (WeighReturns(tr, BitWeight(bit)) + WeighPending(s.pc, BitWeight(bit))) % 2 == 1
  {
    hide Reaches, Init, Members, WeighReturns, WeighPending, FlipsOnly;
    FlippedWhenOdd(s0, tr, s, bit);
    CountIsWeight(Effects(tr), bit);
    EffectsReturnOrPend(WORD, s0, tr, s, BitWeight(bit));
  }

  /** When all threads are idle the completed calls alone decide. */
  lemma QuiescentFlip(s0: State, tr: seq<Label>, s: State, bit: nat)
    requires Init(WORD, s0) && Reaches(WORD, s0, tr, s) && OnlyCalls(tr, FlipsOnly(bit))
    requires forall t :: 0 <= t < |s.pc| ==> s.pc[t].Idle?
    ensures (bit in Members(s.mem)) != (bit in Members(s0.mem)) <==> WeighReturns(tr, BitWeight(bit)) % 2 == 1
  {
    hide Reaches, Init, Members, WeighReturns, WeighPending, FlipsOnly;
    FlippedByCalls(s0, tr, s, bit);
    NothingPending(s.pc, BitWeight(bit));
  }

  /** Otherwise they need not: a complement has flipped the bit and no call has completed. */
  lemma FlipMayBePending() returns (s0: State, tr: seq<Label>, s: State)
    ensures Init(WORD, s0) && Reaches(WORD, s0, tr, s) && OnlyCalls(tr, FlipsOnly(0))
    ensures 0 !in Members(s0.mem) && 0 in Members(s.mem) && WeighReturns(tr, BitWeight(0)) == 0
  {
    var c := CallFor(TestComplement(0));
    FirstFlip();
    LoneFlip(c);
    hide *;
    s0, s := State([0], [Idle]), State([1], [Checking(c, 0, 0)]);
    tr := [Invoke(0, c), ReadWhole(0), Cas(0, c, 0, 0)];
    FlipRun(c, s0, s);
  }

  lemma FirstFlip()
    ensures CallFor(TestComplement(0)) == Call(0, OpXor(1), Reuse) && Xor(0, 1) == 1 && Pow2(WORD) > 1
    ensures 0 !in Members([0]) && 0 in Members([1]) && Init(WORD, State([0], [Idle]))
  {
    MaskIsBit(0);
    assert Pow2(0) == 1;
    Pow2Mono(1, WORD);
  }

  lemma LoneFlip(c: Call)
    requires c == CallFor(TestComplement(0))
    ensures var tr := [Invoke(0, c), ReadWhole(0), Cas(0, c, 0, 0)];
            OnlyCalls(tr, FlipsOnly(0)) && WeighReturns(tr, BitWeight(0)) == 0
  {
    OpOfCallFor(TestComplement(0));
    hide CallFor, WeighReturns;
    NoReturns([Invoke(0, c), ReadWhole(0), Cas(0, c, 0, 0)], BitWeight(0));
  }

  lemma FlipRun(c: Call, s0: State, s: State)
    requires c == Call(0, OpXor(1), Reuse) && Xor(0, 1) == 1 && Pow2(WORD) > 1
    requires s0 == State([0], [Idle]) && s == State([1], [Checking(c, 0, 0)])
    ensures Reaches(WORD, s0, [Invoke(0, c), ReadWhole(0), Cas(0, c, 0, 0)], s)
  {
    hide Xor, Pow2, Reaches;
    NoSteps(WORD, s0);
    OneMoreStep(WORD, s0, [], s0, Invoke(0, c), State([0], [Reading(c)]));
    OneMoreStep(WORD, s0, [] + [Invoke(0, c)], State([0], [Reading(c)]), ReadWhole(0), State([0], [Ready(c, 0)]));
    OneMoreStep(WORD, s0, [] + [Invoke(0, c)] + [ReadWhole(0)], State([0], [Ready(c, 0)]), Cas(0, c, 0, 0), s);
    assert [] + [Invoke(0, c)] + [ReadWhole(0)] + [Cas(0, c, 0, 0)] == [Invoke(0, c), ReadWhole(0), Cas(0, c, 0, 0)];
  }

  lemma {:induction false} NoReturns(tr: seq<Label>, weight: Call -> int)
    requires forall j :: 0 <= j < |tr| ==> !tr[j].Return?
    ensures WeighReturns(tr, weight) == 0
    decreases |tr|
  {
    if tr != [] { NoReturns(Front(tr), weight); }
  }

  ghost predicate OnBit(es: seq<Effect>, k: int, bit: nat)
    requires OnlyEffects(es, IsBitCall)
  {
    0 <= k < |es| && OpOf(es[k].call).bit == bit
  }

  /** The k-th operation is on the bit and found it clear. */
  ghost predicate Wins(es: seq<Effect>, k: int, bit: nat)
    requires OnlyEffects(es, IsBitCall)
  {
    OnBit(es, k, bit) && !BitResult(OpOf(es[k].call), es[k].seen)
  }

  lemma {:induction false} FirstOnBit(es: seq<Effect>, bit: nat) returns (k: nat)
    requires OnlyEffects(es, IsBitCall) && CountBit(es, bit) > 0
    ensures OnBit(es, k, bit) && CountBit(es[..k], bit) == 0
    decreases |es|
  {
    if CountBit(Front(es), bit) > 0 {
      k := FirstOnBit(Front(es), bit);
      assert Front(es)[..k] == es[..k];
    } else {
      k := |es| - 1;
    }
  }

  lemma {:induction false} LaterOnBit(es: seq<Effect>, bit: nat, k: nat)
    requires OnlyEffects(es, IsBitCall) && OnBit(es, k, bit)
    ensures CountBit(es, bit) > CountBit(es[..k], bit)
    decreases |es|
  {
    if k == |es| - 1 {
      assert es[..k] == Front(es);
    } else {
      LaterOnBit(Front(es), bit, k);
      assert Front(es)[..k] == es[..k];
    }
  }

  /** An operation on a bit that is only ever set wins exactly when none on that bit came before it. */
  lemma WinsWhenFirst(mem: seq<nat>, es: seq<Effect>, bit: nat, k: nat)
    requires SeenInOrder(WORD, mem, es) && OnlyEffects(es, SetsOnly(bit)) && bit !in Members(mem)
    requires k < |es| && OpOf(es[k].call).bit == bit
    ensures OnlyEffects(es, IsBitCall)
    ensures Wins(es, k, bit) <==> CountBit(es[..k], bit) == 0
  {
    EffectFindsMembership(mem, es, k);
    SetOnceStaysSet(Members(mem), es[..k], bit);
  }

  /** Among the operations that took effect on a bit that starts clear and is only ever set, exactly one wins. */
  lemma OneWinner(s0: State, tr: seq<Label>, s: State, bit: nat) returns (k: nat)
    requires Init(WORD, s0) && Reaches(WORD, s0, tr, s) && OnlyCalls(tr, SetsOnly(bit)) && bit !in Members(s0.mem)
    requires exists i :: 0 <= i < |tr| && TakesEffect(tr[i]) && IsBitCall(tr[i].call) && OpOf(tr[i].call).bit == bit
    ensures OnlyEffects(Effects(tr), IsBitCall)
    ensures Wins(Effects(tr), k, bit)
    ensures forall k' :: OnBit(Effects(tr), k', bit) && k' != k ==> !Wins(Effects(tr), k', bit)
  {
    var i :| 0 <= i < |tr| && TakesEffect(tr[i]) && IsBitCall(tr[i].call) && OpOf(tr[i].call).bit == bit;
    SequentialHistory(WORD, s0, tr, s);
    EffectsComeFromCalls(WORD, s0, tr, s, SetsOnly(bit));
    PlaceOf(tr, i);
    k := WinnerOf(s0.mem, Effects(tr), bit, |Effects(tr[..i])|);
  }

  lemma WinnerOf(mem: seq<nat>, es: seq<Effect>, bit: nat, some: nat) returns (k: nat)
    requires SeenInOrder(WORD, mem, es) && OnlyEffects(es, SetsOnly(bit)) && bit !in Members(mem)
    requires some < |es| && OpOf(es[some].call).bit == bit
    ensures OnlyEffects(es, IsBitCall) && Wins(es, k, bit)
    ensures forall k' :: OnBit(es, k', bit) && k' != k ==> !Wins(es, k', bit)
  {
    LaterOnBit(es, bit, some);
    k := FirstOnBit(es, bit);
    WinsWhenFirst(mem, es, bit, k);
    forall k' | OnBit(es, k', bit) && k' != k ensures !Wins(es, k', bit) {
      WinsWhenFirst(mem, es, bit, k');
      if k' < k {
        LaterOnBit(es[..k], bit, k');
      } else {
        LaterOnBit(es[..k'], bit, k);
        assert es[..k'][..k] == es[..k];
      }
    }
  }

  /** A completed call on the bit that answered that it was clear. */
  ghost predicate ReturnWins(tr: seq<Label>, j: int, bit: nat) {
    && 0 <= j < |tr| && tr[j].Return? && IsBitCall(tr[j].call)
    && OpOf(tr[j].call).bit == bit && !BitResult(OpOf(tr[j].call), tr[j].result)
  }

  /** The operation behind a winning return is the one that wins in the history. */
  lemma WinningReturn(s0: State, tr: seq<Label>, s: State, bit: nat, j: nat) returns (h: nat, i: nat)
    requires Init(WORD, s0) && Reaches(WORD, s0, tr, s) && OnlyCalls(tr, SetsOnly(bit)) && ReturnWins(tr, j, bit)
    ensures LinearizedAt(WORD, tr, h, i, j)
    ensures OnlyEffects(Effects(tr), IsBitCall) && Wins(Effects(tr), |Effects(tr[..i])|, bit)
  {
    h, i := EveryReturn(WORD, s0, tr, s, j);
    EffectsComeFromCalls(WORD, s0, tr, s, IsBitCall);
    PlaceOf(tr, i);
  }

  /** At most one completed call wins. */
  lemma WinnersDoNotRepeat(s0: State, tr: seq<Label>, s: State, bit: nat, j: nat, j': nat)
    requires Init(WORD, s0) && Reaches(WORD, s0, tr, s) && OnlyCalls(tr, SetsOnly(bit)) && bit !in Members(s0.mem)
    requires ReturnWins(tr, j, bit) && ReturnWins(tr, j', bit)
    ensures j == j'
  {
    var h, i := WinningReturn(s0, tr, s, bit, j);
    var h', i' := WinningReturn(s0, tr, s, bit, j');
    var k := OneWinner(s0, tr, s, bit);
    if i < i' {
      PlacesInOrder(tr, i, i');
    } else if i' < i {
      PlacesInOrder(tr, i', i);
    }
    if j < j' {
      ReturnsHaveTheirOwnEffect(WORD, tr, h, i, j, h', i', j');
    } else if j' < j {
      ReturnsHaveTheirOwnEffect(WORD, tr, h', i', j', h, i, j);
    }
  }

  /** When every thread is idle and some call on the bit completed, a completed call has won. */
  lemma QuiescentWinner(s0: State, tr: seq<Label>, s: State, bit: nat, done: nat) returns (j: nat)
    requires Init(WORD, s0) && Reaches(WORD, s0, tr, s) && OnlyCalls(tr, SetsOnly(bit)) && bit !in Members(s0.mem)
    requires forall t :: 0 <= t < |s.pc| ==> s.pc[t].Idle?
    requires done < |tr| && tr[done].Return? && IsBitCall(tr[done].call) && OpOf(tr[done].call).bit == bit
    ensures ReturnWins(tr, j, bit)
  {
    var _, i0 := EveryReturn(WORD, s0, tr, s, done);
    var k := OneWinner(s0, tr, s, bit);
    var i := StepOf(tr, k);
    var h;
    h, j := EveryEffectReturns(WORD, s0, tr, s, i);
  }

  /** The step i is the winning one of a run that only ever sets the bit. */
  ghost predicate WinsAt(tr: seq<Label>, i: nat, bit: nat) {
    && i < |tr| && TakesEffect(tr[i]) && IsBitCall(tr[i].call) && OpOf(tr[i].call).bit == bit
    && !BitResult(OpOf(tr[i].call), tr[i].seen)
  }

  lemma WinsAtPlace(s0: State, tr: seq<Label>, s: State, bit: nat, i: nat)
    requires Init(WORD, s0) && Reaches(WORD, s0, tr, s) && OnlyCalls(tr, SetsOnly(bit)) && WinsAt(tr, i, bit)
    ensures OnlyEffects(Effects(tr), IsBitCall) && Wins(Effects(tr), |Effects(tr[..i])|, bit)
  {
    hide Reaches, BitResult;
    EffectsComeFromCalls(WORD, s0, tr, s, IsBitCall);
    PlaceOf(tr, i);
  }

  /** The thread of step i has returned from its call. */
  ghost predicate Completed(tr: seq<Label>, i: nat) {
    i < |tr| && exists j :: i < j < |tr| && tr[j].Return? && tr[j].t == tr[i].t
  }

  /** A winning return comes from the winning step. */
  lemma WonThenCompleted(s0: State, tr: seq<Label>, s: State, bit: nat, i: nat, j: nat)
    requires Init(WORD, s0) && Reaches(WORD, s0, tr, s) && OnlyCalls(tr, SetsOnly(bit)) && bit !in Members(s0.mem)
    requires WinsAt(tr, i, bit) && ReturnWins(tr, j, bit)
    ensures Completed(tr, i)
  {
    WinsAtPlace(s0, tr, s, bit, i);
    var h, i' := WinningReturn(s0, tr, s, bit, j);
    OnlyWinner(s0, tr, s, bit, |Effects(tr[..i])|, |Effects(tr[..i'])|);
    hide Reaches, Effects, SetsOnly, Members, ReturnWins, Wins;
    if i < i' { PlacesInOrder(tr, i, i'); }
    if i' < i { PlacesInOrder(tr, i', i); }
  }

  lemma OnlyWinner(s0: State, tr: seq<Label>, s: State, bit: nat, k: nat, k': nat)
    requires Init(WORD, s0) && Reaches(WORD, s0, tr, s) && OnlyCalls(tr, SetsOnly(bit)) && bit !in Members(s0.mem)
    requires OnlyEffects(Effects(tr), IsBitCall) && Wins(Effects(tr), k, bit) && Wins(Effects(tr), k', bit)
    ensures k == k'
  {
    hide Reaches, Members, SetAfter;
    SequentialHistory(WORD, s0, tr, s);
    EffectsComeFromCalls(WORD, s0, tr, s, SetsOnly(bit));
    var only := WinnerOf(s0.mem, Effects(tr), bit, k);
  }

  lemma CompletedThenWon(s0: State, tr: seq<Label>, s: State, bit: nat, i: nat) returns (j: nat)
    requires Init(WORD, s0) && Reaches(WORD, s0, tr, s) && OnlyCalls(tr, SetsOnly(bit))
    requires WinsAt(tr, i, bit) && Completed(tr, i)
    ensures ReturnWins(tr, j, bit)
  {
    hide Reaches, Members, Effects, BitResult, OpOf;
    var later :| i < later < |tr| && tr[later].Return? && tr[later].t == tr[i].t;
    var h;
    h, j := ReturnOfEffect(WORD, s0, tr, s, i, later);
  }

  /** A completed call has won exactly when the thread of the winning step has returned. */
  lemma WinnerCompleted(s0: State, tr: seq<Label>, s: State, bit: nat, i: nat)
    requires Init(WORD, s0) && Reaches(WORD, s0, tr, s) && OnlyCalls(tr, SetsOnly(bit)) && bit !in Members(s0.mem)
    requires WinsAt(tr, i, bit)
    ensures (exists j :: ReturnWins(tr, j, bit)) <==> Completed(tr, i)
  {
    hide Reaches, Completed, WinsAt, Members, SetsOnly;
    if j :| ReturnWins(tr, j, bit) {
      WonThenCompleted(s0, tr, s, bit, i, j);
    }
    if Completed(tr, i) {
      var j := CompletedThenWon(s0, tr, s, bit, i);
    }
  }

  lemma FirstMask()
    ensures Mask(0) == 1 && CallFor(TestSet(0)) == Call(0, OpOr(1), Reuse) && Or(0, 1) == 1 && Or(1, 1) == 1
    ensures Members([0]) == {} && Pow2(WORD) > 1
  {
    MaskIsBit(0);
    assert Pow2(0) == 1;
    forall b: nat | b < WORD ensures !Bit(0, b) { ZeroBit(b); }
    Pow2Mono(1, WORD);
  }

  function PendingWinner(c: Call): seq<Label> {
    [Invoke(0, c), ReadWhole(0), Cas(0, c, 0, 0), Invoke(1, c), ReadWhole(1), Cas(1, c, 1, 1), Return(1, c, 1)]
  }

  lemma FirstThreadSets(c: Call, s0: State) returns (s: State)
    requires c == CallFor(TestSet(0)) && s0 == State([0], [Idle, Idle])
    ensures s == State([1], [Checking(c, 0, 0), Idle])
    ensures Reaches(WORD, s0, [Invoke(0, c), ReadWhole(0), Cas(0, c, 0, 0)], s)
  {
    FirstMask();
    hide Or, Bit, Pow2, Members, Mask, Reaches;
    var s1 := State([0], [Reading(c), Idle]);
    var s2 := State([0], [Ready(c, 0), Idle]);
    s := State([1], [Checking(c, 0, 0), Idle]);
    NoSteps(WORD, s0);
    OneMoreStep(WORD, s0, [], s0, Invoke(0, c), s1);
    OneMoreStep(WORD, s0, [] + [Invoke(0, c)], s1, ReadWhole(0), s2);
    OneMoreStep(WORD, s0, [] + [Invoke(0, c)] + [ReadWhole(0)], s2, Cas(0, c, 0, 0), s);
    assert [] + [Invoke(0, c)] + [ReadWhole(0)] + [Cas(0, c, 0, 0)] == [Invoke(0, c), ReadWhole(0), Cas(0, c, 0, 0)];
  }

  lemma SecondThreadReturns(c: Call, s0: State, tr: seq<Label>, s3: State) returns (s: State)
    requires c == CallFor(TestSet(0)) && Reaches(WORD, s0, tr, s3) && s3 == State([1], [Checking(c, 0, 0), Idle])
    ensures Reaches(WORD, s0, tr + [Invoke(1, c)] + [ReadWhole(1)] + [Cas(1, c, 1, 1)] + [Return(1, c, 1)], s)
  {
    FirstMask();
    hide Or, Bit, Pow2, Members, Mask, Reaches;
    var s4 := State([1], [Checking(c, 0, 0), Reading(c)]);
    var s5 := State([1], [Checking(c, 0, 0), Ready(c, 1)]);
    var s6 := State([1], [Checking(c, 0, 0), Checking(c, 1, 1)]);
    s := State([1], [Checking(c, 0, 0), Idle]);
    OneMoreStep(WORD, s0, tr, s3, Invoke(1, c), s4);
    OneMoreStep(WORD, s0, tr + [Invoke(1, c)], s4, ReadWhole(1), s5);
    OneMoreStep(WORD, s0, tr + [Invoke(1, c)] + [ReadWhole(1)], s5, Cas(1, c, 1, 1), s6);
    OneMoreStep(WORD, s0, tr + [Invoke(1, c)] + [ReadWhole(1)] + [Cas(1, c, 1, 1)], s6, Return(1, c, 1), s);
  }

  /** Both threads call test-and-set on a clear bit; the first has set it but has not returned
    * when the second, which found it set, completes.
    */
  lemma WinnerMayBePending() returns (s0: State, tr: seq<Label>, s: State)
    ensures Init(WORD, s0) && Reaches(WORD, s0, tr, s) && OnlyCalls(tr, SetsOnly(0)) && 0 !in Members(s0.mem)
    ensures tr == PendingWinner(CallFor(TestSet(0))) && !exists j :: ReturnWins(tr, j, 0)
  {
    var c := CallFor(TestSet(0));
    ClearStart();
    NobodyWon(c);
    hide *;
    s0 := State([0], [Idle, Idle]);
    var s3 := FirstThreadSets(c, s0);
    s := SecondThreadReturns(c, s0, [Invoke(0, c), ReadWhole(0), Cas(0, c, 0, 0)], s3);
    tr := PendingWinner(c);
    TraceParts(c);
  }

  lemma ClearStart()
    ensures Init(WORD, State([0], [Idle, Idle])) && 0 !in Members([0])
  {
    FirstMask();
  }

  lemma TraceParts(c: Call)
    ensures PendingWinner(c) == [Invoke(0, c), ReadWhole(0), Cas(0, c, 0, 0)]
              + [Invoke(1, c)] + [ReadWhole(1)] + [Cas(1, c, 1, 1)] + [Return(1, c, 1)]
  {
  }

  lemma NobodyWon(c: Call)
    requires c == CallFor(TestSet(0))
    ensures OnlyCalls(PendingWinner(c), SetsOnly(0)) && !exists j :: ReturnWins(PendingWinner(c), j, 0)
  {
    SetBitFound(c);
    hide CallFor, BitResult, IsBitCall;
    forall j ensures !ReturnWins(PendingWinner(c), j, 0) {
      assert ReturnWins(PendingWinner(c), j, 0) ==> j == 6;
    }
  }

  lemma SetBitFound(c: Call)
    requires c == CallFor(TestSet(0))
    ensures IsBitCall(c) && OpOf(c) == TestSet(0) && BitResult(OpOf(c), 1)
  {
    OpOfCallFor(TestSet(0));
    FirstMask();
    AllOnes(1, 1);
  }

  // ----- One call, in place

  class BitArray {
    const words: array<nat>

    constructor (words: array<nat>)
      ensures this.words == words
    {
      this.words := words;
    }

    /** The three bit-test functions, run without interference. */
    method BitTest(op: BitOp) returns (was: bool)
      requires op.bit < WORD * words.Length
      modifies words
      ensures Members(words[..]) == Update(op, old(Members(words[..])))
      ensures was <==> op.bit in old(Members(words[..]))
    {
      var at, mask := op.bit / WORD, Mask(op.bit);
      WordOpIsSetOp(op, words[..]);
      ResultIsMembership(op, words[..]);
      ghost var before := words[..];
      MaskIsBit(op.bit);
      var word := words[at];
      match op {
        case TestSet(_) => words[at] := Or(word, mask);
        case TestReset(_) => words[at] := And(word, Not(WORD, mask));
        case TestComplement(_) => words[at] := Xor(word, mask);
      }
      assert words[..] == before[at := Apply(WORD, CallFor(op).op, before[at])];
      was := And(word, mask) != 0;
    }
  }
}
