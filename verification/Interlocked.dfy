/** The compare-exchange retry loops of winbase.h as a step system: any number of threads, a shared
  * word array, and one step per access to shared memory.
  */
module Interlocked {
  import opened Bits

  datatype Op =
    | OpAnd(value: nat)
    | OpOr(value: nat)
    | OpXor(value: nat)
    | OpExchange(value: nat)
    | OpExchangeAdd(value: nat)
    | OpIncrement
    | OpDecrement

  /** Reuse: one plain read, then each attempt starts from the value the failed CAS returned.
    * Reread: every attempt starts with a plain read.
    */
  datatype Loop = Reuse | Reread

  datatype Call = Call(at: nat, op: Op, loop: Loop)

  /** Where a thread is inside the loop, with its locals. */
  datatype PC =
    | Idle
    | Reading(call: Call)
    | HalfRead(call: Call, high: bool, part: nat)
    | Ready(call: Call, was: nat)
    | Checking(call: Call, was: nat, seen: nat)

  datatype State = State(mem: seq<nat>, pc: seq<PC>)

  datatype Label =
    | Invoke(t: nat, call: Call)
    | ReadWhole(t: nat)
    | ReadHalf(t: nat, high: bool)
    | ReadRest(t: nat)
    | Misread(t: nat, value: nat)
    | Cas(t: nat, call: Call, was: nat, seen: nat)
    | Again(t: nat)
    | Return(t: nat, call: Call, result: nat)

  /** The value the loop body offers to the CAS; w is the width of a word. */
  function Apply(w: nat, op: Op, was: nat): nat {
    match op
    case OpAnd(v) => And(was, v)
    case OpOr(v) => Or(was, v)
    case OpXor(v) => Xor(was, v)
    case OpExchange(v) => v
    case OpExchangeAdd(v) => (was + v) % Pow2(w)
    case OpIncrement => (was + 1) % Pow2(w)
    case OpDecrement => (was - 1) % Pow2(w)
  }

  /** The return statement of each loop, from its locals. */
  function ReturnValue(w: nat, call: Call, was: nat, seen: nat): nat {
    if call.loop.Reuse? then seen
    else match call.op
      case OpIncrement => (was + 1) % Pow2(w)
      case OpDecrement => (was - 1) % Pow2(w)
      case _ => was
  }

  function Half(w: nat, high: bool, v: nat): nat {
    if high then v / Pow2(w / 2) else v % Pow2(w / 2)
  }

  function Join(w: nat, high: nat, low: nat): nat {
    high * Pow2(w / 2) + low
  }

  lemma Halves(w: nat, v: nat)
    ensures Join(w, Half(w, true, v), Half(w, false, v)) == v
  {
  }

  predicate ValidCall(w: nat, cells: nat, call: Call) {
    && call.at < cells
    && ValidOp(w, call.op)
    // the loops that reuse the value the CAS returned are And, Or and Xor
    && (call.loop.Reuse? ==> call.op.OpAnd? || call.op.OpOr? || call.op.OpXor?)
  }

  predicate Init(w: nat, s: State) {
    && (forall a :: 0 <= a < |s.mem| ==> s.mem[a] < Pow2(w))
    && (forall t :: 0 <= t < |s.pc| ==> s.pc[t] == Idle)
  }

  predicate Step(w: nat, s: State, l: Label, s': State) {
    && l.t < |s.pc|
    && var p := s.pc[l.t];
    && (!p.Idle? ==> p.call.at < |s.mem|)
    && match l
      case Invoke(t, call) =>
        && p.Idle? && ValidCall(w, |s.mem|, call)
        && s' == s.(pc := s.pc[t := Reading(call)])
      case ReadWhole(t) =>
        && p.Reading?
        && s' == s.(pc := s.pc[t := Ready(p.call, s.mem[p.call.at])])
      case ReadHalf(t, high) =>
        && p.Reading?
        && s' == s.(pc := s.pc[t := HalfRead(p.call, high, Half(w, high, s.mem[p.call.at]))])
      case ReadRest(t) =>
        && p.HalfRead?
        && var rest := Half(w, !p.high, s.mem[p.call.at]);
        && s' == s.(pc := s.pc[t := Ready(p.call, if p.high then Join(w, p.part, rest) else Join(w, rest, p.part))])
      case Misread(t, value) =>
        && p.Reading?
        && s' == s.(pc := s.pc[t := Ready(p.call, value)])
      case Cas(t, call, was, seen) =>
        && p == Ready(call, was) && seen == s.mem[call.at]
        && s' == State(if seen == was then s.mem[call.at := Apply(w, call.op, was)] else s.mem,
                       s.pc[t := Checking(call, was, seen)])
      case Again(t) =>
        && p.Checking? && p.was != p.seen
        && s' == s.(pc := s.pc[t := if p.call.loop.Reuse? then Ready(p.call, p.seen) else Reading(p.call)])
      case Return(t, call, result) =>
        && p.Checking? && p.was == p.seen && p.call == call
        && result == ReturnValue(w, call, p.was, p.seen)
        && s' == s.(pc := s.pc[t := Idle])
  }

  function Front<T>(s: seq<T>): seq<T>
    requires s != []
  {
    s[..|s| - 1]
  }

  function Last<T>(s: seq<T>): T
    requires s != []
  {
    s[|s| - 1]
  }

  lemma SnocParts<T>(s: seq<T>, x: T)
    ensures Front(s + [x]) == s && Last(s + [x]) == x
  {
    assert (s + [x])[..|s|] == s;
  }

  /** The run tr leads from s0 to s. */
  ghost predicate Reaches(w: nat, s0: State, tr: seq<Label>, s: State)
    decreases |tr|
  {
    if tr == [] then s == s0
    else exists mid :: Reaches(w, s0, Front(tr), mid) && Step(w, mid, Last(tr), s)
  }

  /** The last step of a non-empty run. */
  lemma LastStep(w: nat, s0: State, tr: seq<Label>, s: State) returns (mid: State)
    requires tr != [] && Reaches(w, s0, tr, s)
    ensures Reaches(w, s0, Front(tr), mid) && Step(w, mid, Last(tr), s)
  {
    mid :| Reaches(w, s0, Front(tr), mid) && Step(w, mid, Last(tr), s);
  }

  lemma NoSteps(w: nat, s: State)
    ensures Reaches(w, s, [], s)
  {
  }

  lemma OneMoreStep(w: nat, s0: State, tr: seq<Label>, mid: State, l: Label, s: State)
    requires Reaches(w, s0, tr, mid) && Step(w, mid, l, s)
    ensures Reaches(w, s0, tr + [l], s)
  {
    SnocParts(tr, l);
  }

  /** Every call in progress is one a thread was allowed to make. */
  lemma {:induction false} CallsStayValid(w: nat, s0: State, tr: seq<Label>, s: State)
    requires Init(w, s0) && Reaches(w, s0, tr, s)
    ensures CallsValid(w, s)
    decreases |tr|
  {
    if tr != [] {
      var mid := LastStep(w, s0, tr, s);
      CallsStayValid(w, s0, Front(tr), mid);
    }
  }

  /** Every cell holds a word. */
  predicate CellsValid(w: nat, s: State) {
    forall a :: 0 <= a < |s.mem| ==> s.mem[a] < Pow2(w)
  }

  /** The loops only ever store words. */
  lemma {:induction false} CellsStayWords(w: nat, s0: State, tr: seq<Label>, s: State)
    requires Init(w, s0) && Reaches(w, s0, tr, s)
    ensures CellsValid(w, s)
    decreases |tr|
  {
    if tr != [] {
      var mid := LastStep(w, s0, tr, s);
      CellsStayWords(w, s0, Front(tr), mid);
      CallsStayValid(w, s0, Front(tr), mid);
      var l := Last(tr);
      if l.Cas? && l.was == l.seen {
        ApplyIsWord(w, l.call.op, l.was);
      }
    }
  }

  predicate ValidOp(w: nat, op: Op) {
    op.OpIncrement? || op.OpDecrement? || op.value < Pow2(w)
  }

  lemma ApplyIsWord(w: nat, op: Op, v: nat)
    requires v < Pow2(w) && ValidOp(w, op)
    ensures Apply(w, op, v) < Pow2(w)
  {
    if op.OpAnd? || op.OpOr? || op.OpXor? {
      StaysBelow(v, op.value, w);
    }
  }

  // ----- The atomic object the loops are meant to implement

  datatype Phase = Free | Pending(call: Call) | Done(call: Call, answer: nat)

  datatype Object = Object(mem: seq<nat>, phase: seq<Phase>)

  datatype Act =
    | Start(t: nat, call: Call)
    | Perform(t: nat)
    | Finish(t: nat, call: Call, answer: nat)

  /** What an operation does to a cell that holds a word: digit by digit for the bitwise operations, with
    * wrap-around for the arithmetic ones.
    */
  ghost predicate Becomes(w: nat, op: Op, before: nat, after: nat) {
    match op
    case OpAnd(v) => forall i: nat :: Bit(after, i) <==> Bit(before, i) && Bit(v, i)
    case OpOr(v) => forall i: nat :: Bit(after, i) <==> Bit(before, i) || Bit(v, i)
    case OpXor(v) => forall i: nat :: Bit(after, i) <==> Bit(before, i) != Bit(v, i)
    case OpExchange(v) => after == v
    case OpExchangeAdd(v) => after == if before + v < Pow2(w) then before + v else before + v - Pow2(w)
    case OpIncrement => after == if before + 1 == Pow2(w) then 0 else before + 1
    case OpDecrement => after == if before == 0 then Pow2(w) - 1 else before - 1
  }

  /** ... and what the call answers: the new value for increment and decrement, otherwise the old one. */
  ghost predicate Means(w: nat, op: Op, before: nat, after: nat, answer: nat) {
    Becomes(w, op, before, after) && answer == if op.OpIncrement? || op.OpDecrement? then after else before
  }

  /** An operation means one thing only. */
  lemma MeansOneThing(w: nat, op: Op, before: nat, after: nat, answer: nat, after': nat, answer': nat)
    requires Means(w, op, before, after, answer) && Means(w, op, before, after', answer')
    ensures after == after' && answer == answer'
  {
    if op.OpAnd? || op.OpOr? || op.OpXor? {
      SameBits(after, after');
    }
  }

  /** The answer of a call that takes effect on a cell that holds v. */
  function Answer(w: nat, op: Op, v: nat): nat {
    if op.OpIncrement? || op.OpDecrement? then Apply(w, op, v) else v
  }

  /** What the loops store and return is what the operations mean. */
  lemma ApplyMeans(w: nat, op: Op, v: nat)
    requires v < Pow2(w) && ValidOp(w, op)
    ensures Means(w, op, v, Apply(w, op, v), Answer(w, op, v))
  {
    hide And, Or, Xor, Pow2;
    match op
    case OpAnd(x) => forall i: nat { AndBit(v, x, i); }
    case OpOr(x) => forall i: nat { OrBit(v, x, i); }
    case OpXor(x) => forall i: nat { XorBit(v, x, i); }
    case OpExchange(_) =>
    case OpExchangeAdd(x) => WrapOnce(v + x, Pow2(w));
    case OpIncrement => WrapOnce(v + 1, Pow2(w));
    case OpDecrement => WrapOnce(v - 1, Pow2(w));
  }

  lemma WrapOnce(x: int, m: nat)
    requires m > 0 && 0 <= x + m && x < 2 * m
    ensures x % m == if x < 0 then x + m else if x < m then x else x - m
  {
    if x < 0 {
      DivModUnique(x, m, -1, x + m);
    } else if x < m {
      DivModUnique(x, m, 0, x);
    } else {
      DivModUnique(x, m, 1, x - m);
    }
  }

  /** One step of the object. What it stores and answers is stated by Means, not by the loops. */
  ghost predicate ActStep(w: nat, o: Object, a: Act, o': Object) {
    && a.t < |o.phase|
    && var p := o.phase[a.t];
    && match a
      case Start(t, call) =>
        && p.Free? && ValidCall(w, |o.mem|, call)
        && o' == o.(phase := o.phase[t := Pending(call)])
      case Perform(t) =>
        && p.Pending? && p.call.at < |o.mem| == |o'.mem| && |o'.phase| == |o.phase| && o'.phase[t].Done?
        && var after, answer := o'.mem[p.call.at], o'.phase[t].answer;
        && Means(w, p.call.op, o.mem[p.call.at], after, answer)
        && o' == Object(o.mem[p.call.at := after], o.phase[t := Done(p.call, answer)])
      case Finish(t, call, answer) =>
        && p == Done(call, answer)
        && o' == o.(phase := o.phase[t := Free])
  }

  ghost predicate ActReaches(w: nat, o0: Object, acts: seq<Act>, o: Object)
    decreases |acts|
  {
    if acts == [] then o == o0
    else exists mid :: ActReaches(w, o0, Front(acts), mid) && ActStep(w, mid, Last(acts), o)
  }

  function AbsPC(w: nat, p: PC): Phase {
    if p.Idle? then Free
    else if p.Checking? && p.was == p.seen then Done(p.call, ReturnValue(w, p.call, p.was, p.seen))
    else Pending(p.call)
  }

  function Abs(w: nat, s: State): Object {
    Object(s.mem, seq(|s.pc|, t requires 0 <= t < |s.pc| => AbsPC(w, s.pc[t])))
  }

  /** How a step of the loops looks to the atomic object: a call takes effect at its successful CAS. */
  function ActOf(l: Label): seq<Act> {
    match l
    case Invoke(t, call) => [Start(t, call)]
    case Cas(t, call, was, seen) => if was == seen then [Perform(t)] else []
    case Return(t, call, result) => [Finish(t, call, result)]
    case _ => []
  }

  function Acts(tr: seq<Label>): seq<Act>
    decreases |tr|
  {
    if tr == [] then [] else Acts(Front(tr)) + ActOf(Last(tr))
  }

  predicate CallsValid(w: nat, s: State) {
    forall t :: 0 <= t < |s.pc| && !s.pc[t].Idle? ==> ValidCall(w, |s.mem|, s.pc[t].call)
  }

  lemma ReturnIsAnswer(w: nat, cells: nat, call: Call, v: nat)
    requires ValidCall(w, cells, call)
    ensures ReturnValue(w, call, v, v) == Answer(w, call.op, v)
  {
  }

  /** One step of one thread is at most one step of the atomic object. */
  lemma StepRefines(w: nat, s: State, l: Label, s': State)
    requires CallsValid(w, s) && CellsValid(w, s) && Step(w, s, l, s')
    ensures ActOf(l) == [] ==> Abs(w, s') == Abs(w, s)
    ensures ActOf(l) != [] ==> ActStep(w, Abs(w, s), ActOf(l)[0], Abs(w, s'))
  {
    var o, o' := Abs(w, s), Abs(w, s');
    assert o'.phase == o.phase[l.t := AbsPC(w, s'.pc[l.t])];
    if l.Cas? && l.was == l.seen {
      ApplyMeans(w, l.call.op, l.was);
      ReturnIsAnswer(w, |s.mem|, l.call, l.was);
      hide Becomes, Apply, ReturnValue;
    }
  }

  /** Linearizability: in every interleaving, with whole, torn or arbitrary plain reads, the loops
    * behave as one atomic object whose calls take effect at their successful CAS.
    */
  lemma {:induction false} RefinesAtomicObject(w: nat, s0: State, tr: seq<Label>, s: State)
    requires Init(w, s0) && Reaches(w, s0, tr, s)
    ensures ActReaches(w, Abs(w, s0), Acts(tr), Abs(w, s))
    decreases |tr|
  {
    if tr != [] {
      var mid := LastStep(w, s0, tr, s);
      RefinesAtomicObject(w, s0, Front(tr), mid);
      CallsStayValid(w, s0, Front(tr), mid);
      CellsStayWords(w, s0, Front(tr), mid);
      StepRefines(w, mid, Last(tr), s);
      if ActOf(Last(tr)) == [] {
        assert Acts(tr) == Acts(Front(tr));
      } else {
        assert Acts(tr) == Acts(Front(tr)) + [ActOf(Last(tr))[0]];
        SnocParts(Acts(Front(tr)), ActOf(Last(tr))[0]);
      }
    }
  }
}
