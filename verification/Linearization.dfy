/** What atomicity buys a caller: one sequential history explains memory and every return value. */
module Linearization {
  import opened Bits
  import opened Interlocked

  /** A call that took effect: its thread and the value its successful CAS found. */
  datatype Effect = Effect(t: nat, call: Call, seen: nat)

  predicate TakesEffect(l: Label) {
    l.Cas? && l.was == l.seen
  }

  /** The calls of a run in the order of their successful CAS. */
  function Effects(tr: seq<Label>): seq<Effect>
    decreases |tr|
  {
    if tr == [] then []
    else if TakesEffect(Last(tr)) then Effects(Front(tr)) + [Effect(Last(tr).t, Last(tr).call, Last(tr).seen)]
    else Effects(Front(tr))
  }

  /** Memory after the calls run one after the other, with no concurrency. */
  function Replay(w: nat, mem: seq<nat>, es: seq<Effect>): (m: seq<nat>)
    ensures |m| == |mem|
    decreases |es|
  {
    if es == [] then mem
    else
      var m := Replay(w, mem, Front(es));
      var c := Last(es).call;
      if c.at < |m| then m[c.at := Apply(w, c.op, m[c.at])] else m
  }

  /** Each call found what the calls ordered before it left behind. */
  predicate SeenInOrder(w: nat, mem: seq<nat>, es: seq<Effect>)
    decreases |es|
  {
    es == [] ||
    var e := Last(es);
    SeenInOrder(w, mem, Front(es)) && e.call.at < |mem| && e.seen == Replay(w, mem, Front(es))[e.call.at]
  }

  lemma {:induction false} SeenAt(w: nat, mem: seq<nat>, es: seq<Effect>, k: nat)
    requires SeenInOrder(w, mem, es) && k < |es|
    ensures es[k].call.at < |mem| && es[k].seen == Replay(w, mem, es[..k])[es[k].call.at]
    ensures SeenInOrder(w, mem, es[..k])
    decreases |es|
  {
    if k == |es| - 1 {
      assert es[..k] == Front(es);
    } else {
      SeenAt(w, mem, Front(es), k);
      assert Front(es)[..k] == es[..k];
    }
  }

  lemma StepMemory(w: nat, s: State, l: Label, s': State)
    requires Step(w, s, l, s')
    ensures !TakesEffect(l) ==> s'.mem == s.mem
    ensures TakesEffect(l) ==>
              && l.call.at < |s.mem| && l.seen == s.mem[l.call.at]
              && s'.mem == s.mem[l.call.at := Apply(w, l.call.op, l.seen)]
  {
  }

  lemma {:induction false} SequentialHistory(w: nat, s0: State, tr: seq<Label>, s: State)
    requires Reaches(w, s0, tr, s)
    ensures s.mem == Replay(w, s0.mem, Effects(tr))
    ensures SeenInOrder(w, s0.mem, Effects(tr))
    decreases |tr|
  {
    if tr != [] {
      var mid := LastStep(w, s0, tr, s);
      SequentialHistory(w, s0, Front(tr), mid);
      StepMemory(w, mid, Last(tr), s);
      if TakesEffect(Last(tr)) {
        SnocParts(Effects(Front(tr)), Effect(Last(tr).t, Last(tr).call, Last(tr).seen));
      }
    }
  }

  // ----- Each call takes effect between its invocation and its return

  /** The events that open, settle or close a call of thread t. */
  predicate Marks(l: Label, t: nat) {
    l.t == t && (l.Invoke? || l.Return? || TakesEffect(l))
  }

  ghost predicate NoMarks(tr: seq<Label>, t: nat, from: int, to: int) {
    forall j {:trigger tr[j]} :: 0 <= j < |tr| && from < j < to ==> !Marks(tr[j], t)
  }

  predicate HasEffect(p: PC) {
    p.Checking? && p.was == p.seen
  }

  /** How a step moves the thread t through its call. */
  lemma StepThread(w: nat, s: State, l: Label, s': State, t: nat)
    requires Step(w, s, l, s') && t < |s'.pc| && !s'.pc[t].Idle?
    ensures l.t == t && l.Invoke? ==> s'.pc[t].call == l.call && !HasEffect(s'.pc[t])
    ensures !(l.t == t && l.Invoke?) ==> t < |s.pc| && !s.pc[t].Idle? && s'.pc[t].call == s.pc[t].call
    ensures Marks(l, t) && !l.Invoke? ==>
              && !HasEffect(s.pc[t]) && HasEffect(s'.pc[t])
              && l == Cas(t, s'.pc[t].call, s'.pc[t].was, s'.pc[t].was)
    ensures !Marks(l, t) ==> HasEffect(s'.pc[t]) == HasEffect(s.pc[t]) && (HasEffect(s'.pc[t]) ==> s'.pc[t] == s.pc[t])
  {
  }

  lemma QuietSnoc(tr: seq<Label>, t: nat, from: int)
    requires tr != [] && NoMarks(Front(tr), t, from, |tr| - 1)
    ensures NoMarks(tr, t, from, |tr| - 1)
    ensures !Marks(Last(tr), t) ==> NoMarks(tr, t, from, |tr|)
  {
    forall j | 0 <= j < |tr| && from < j < |tr| - 1 ensures !Marks(tr[j], t) {
      assert Front(tr)[j] == tr[j];
    }
  }

  /** A call in progress was invoked at h and, once its CAS succeeded, took effect at i. */
  ghost predicate InProgress(tr: seq<Label>, t: nat, p: PC, h: nat, i: nat) {
    && !p.Idle? && h < |tr| && tr[h] == Invoke(t, p.call)
    && if HasEffect(p) then
         && h < i < |tr| && tr[i] == Cas(t, p.call, p.was, p.was)
         && NoMarks(tr, t, h, i) && NoMarks(tr, t, i, |tr|)
       else NoMarks(tr, t, h, |tr|)
  }

  lemma {:induction false} Progress(w: nat, s0: State, tr: seq<Label>, s: State, t: nat) returns (h: nat, i: nat)
    requires Init(w, s0) && Reaches(w, s0, tr, s)
    requires t < |s.pc| && !s.pc[t].Idle?
    ensures InProgress(tr, t, s.pc[t], h, i)
    decreases |tr|
  {
    h, i := |tr| - 1, |tr| - 1;
    var mid := LastStep(w, s0, tr, s);
    StepThread(w, mid, Last(tr), s, t);
    if !(Last(tr).Invoke? && Last(tr).t == t) {
      h, i := Progress(w, s0, Front(tr), mid, t);
      if HasEffect(mid.pc[t]) {
        QuietSnoc(tr, t, i);
        forall j | 0 <= j < |tr| && h < j < i ensures !Marks(tr[j], t) {
          assert Front(tr)[j] == tr[j];
        }
      } else {
        QuietSnoc(tr, t, h);
        i := |tr| - 1;
      }
    }
  }

  /** The run up to and including step j. */
  lemma {:induction false} Prefix(w: nat, s0: State, tr: seq<Label>, s: State, j: nat) returns (a: State, b: State)
    requires Reaches(w, s0, tr, s) && j < |tr|
    ensures Reaches(w, s0, tr[..j], a) && Step(w, a, tr[j], b)
    decreases |tr|
  {
    a := LastStep(w, s0, tr, s);
    b := s;
    if j < |tr| - 1 {
      a, b := Prefix(w, s0, Front(tr), a, j);
      assert Front(tr)[..j] == tr[..j];
    }
  }

  /** The call that returns at j was invoked at h and took effect at i. */
  ghost predicate LinearizedAt(w: nat, tr: seq<Label>, h: nat, i: nat, j: nat) {
    && h < i < j < |tr|
    && tr[j].Return? && TakesEffect(tr[i])
    && tr[h] == Invoke(tr[j].t, tr[j].call)
    && tr[i].t == tr[j].t && tr[i].call == tr[j].call
    && tr[j].result == Answer(w, tr[i].call.op, tr[i].seen)
    && NoMarks(tr, tr[j].t, h, i) && NoMarks(tr, tr[j].t, i, j)
  }

  /** Every return has one moment inside its call at which the call took effect,
    * and returns what the sequential history dictates there.
    */
  lemma EveryReturn(w: nat, s0: State, tr: seq<Label>, s: State, j: nat) returns (h: nat, i: nat)
    requires Init(w, s0) && Reaches(w, s0, tr, s) && j < |tr| && tr[j].Return?
    ensures LinearizedAt(w, tr, h, i, j)
  {
    hide Reaches, Init;
    var a, b := Prefix(w, s0, tr, s, j);
    h, i := Progress(w, s0, tr[..j], a, tr[j].t);
    CallsStayValid(w, s0, tr[..j], a);
  }

  /** The step at which a call takes effect changes its cell, and no other, as the operation means it. */
  lemma EffectMeans(w: nat, s0: State, tr: seq<Label>, s: State, i: nat) returns (a: State, b: State)
    requires Init(w, s0) && Reaches(w, s0, tr, s) && i < |tr| && TakesEffect(tr[i])
    ensures Reaches(w, s0, tr[..i], a) && Step(w, a, tr[i], b)
    ensures var call := tr[i].call;
            && call.at < |a.mem| == |b.mem| && tr[i].seen == a.mem[call.at]
            && b.mem == a.mem[call.at := b.mem[call.at]]
            && Means(w, call.op, a.mem[call.at], b.mem[call.at], Answer(w, call.op, tr[i].seen))
  {
    a, b := Prefix(w, s0, tr, s, i);
    CallsStayValid(w, s0, tr[..i], a);
    CellsStayWords(w, s0, tr[..i], a);
    StepMemory(w, a, tr[i], b);
    ApplyMeans(w, tr[i].call.op, tr[i].seen);
    hide Reaches, Becomes, Apply;
  }

  /** Every completed call changed its cell at one moment as its operation means it, and returned what that means. */
  lemma ReturnMeans(w: nat, s0: State, tr: seq<Label>, s: State, j: nat)
    returns (h: nat, i: nat, a: State, b: State)
    requires Init(w, s0) && Reaches(w, s0, tr, s) && j < |tr| && tr[j].Return?
    ensures LinearizedAt(w, tr, h, i, j) && Reaches(w, s0, tr[..i], a) && Step(w, a, tr[i], b)
    ensures var call := tr[j].call;
            && call.at < |a.mem| == |b.mem| && b.mem == a.mem[call.at := b.mem[call.at]]
            && Means(w, call.op, a.mem[call.at], b.mem[call.at], tr[j].result)
  {
    hide Reaches, Step, Means, Init;
    h, i := EveryReturn(w, s0, tr, s, j);
    a, b := EffectMeans(w, s0, tr, s, i);
  }

  /** The place of the step i in the sequential history. */
  lemma {:induction false} PlaceOf(tr: seq<Label>, i: nat)
    requires i < |tr| && TakesEffect(tr[i])
    ensures |Effects(tr[..i])| < |Effects(tr)|
    ensures Effects(tr)[|Effects(tr[..i])|] == Effect(tr[i].t, tr[i].call, tr[i].seen)
    ensures Effects(tr[..i]) == Effects(tr)[..|Effects(tr[..i])|]
    decreases |tr|
  {
    if i == |tr| - 1 {
      assert tr[..i] == Front(tr);
    } else {
      PlaceOf(Front(tr), i);
      assert Front(tr)[..i] == tr[..i];
    }
  }

  /** The step at which the k-th effect happened. */
  lemma {:induction false} StepOf(tr: seq<Label>, k: nat) returns (i: nat)
    requires k < |Effects(tr)|
    ensures i < |tr| && TakesEffect(tr[i]) && |Effects(tr[..i])| == k
    ensures Effects(tr)[k] == Effect(tr[i].t, tr[i].call, tr[i].seen)
    decreases |tr|
  {
    if k < |Effects(Front(tr))| {
      i := StepOf(Front(tr), k);
      assert Front(tr)[..i] == tr[..i];
    } else {
      i := |tr| - 1;
      assert Front(tr) == tr[..i];
    }
  }

  /** Different returns have different places. */
  lemma ReturnsHaveTheirOwnEffect(w: nat, tr: seq<Label>, h: nat, i: nat, j: nat, h': nat, i': nat, j': nat)
    requires LinearizedAt(w, tr, h, i, j) && LinearizedAt(w, tr, h', i', j') && j < j'
    ensures i != i'
  {
    assert Marks(tr[j], tr[j].t);
  }

  /** A call that took effect at i has returned by the time its thread is idle again. */
  lemma {:induction false} EffectReturns(w: nat, s0: State, tr: seq<Label>, s: State, i: nat) returns (j: nat)
    requires Reaches(w, s0, tr, s) && i < |tr| && TakesEffect(tr[i])
    ensures tr[i].t < |s.pc|
    ensures i < j <= |tr| && NoMarks(tr, tr[i].t, i, j)
    ensures if j == |tr| then HasEffect(s.pc[tr[i].t]) else tr[j].Return? && tr[j].t == tr[i].t
    decreases |tr|
  {
    hide Reaches, Apply;
    var mid := LastStep(w, s0, tr, s);
    j := |tr|;
    if i < |tr| - 1 {
      j := EffectReturns(w, s0, Front(tr), mid, i);
      forall k | 0 <= k < |tr| && i < k < j ensures !Marks(tr[k], tr[i].t) {
        assert tr[k] == Front(tr)[k];
      }
      if j == |tr| - 1 && !Marks(Last(tr), tr[i].t) {
        j := |tr|;
      }
    }
  }

  /** ... and that return carries the answer of the effect. */
  lemma EveryEffectReturns(w: nat, s0: State, tr: seq<Label>, s: State, i: nat) returns (h: nat, j: nat)
    requires Init(w, s0) && Reaches(w, s0, tr, s) && i < |tr| && TakesEffect(tr[i])
    requires tr[i].t < |s.pc| ==> s.pc[tr[i].t].Idle?
    ensures LinearizedAt(w, tr, h, i, j)
  {
    j := EffectReturns(w, s0, tr, s, i);
    var i';
    h, i' := EveryReturn(w, s0, tr, s, j);
    assert Marks(tr[i], tr[i].t) && Marks(tr[i'], tr[i].t);
  }

  /** ... or as soon as its thread has returned at all since. */
  lemma ReturnOfEffect(w: nat, s0: State, tr: seq<Label>, s: State, i: nat, later: nat) returns (h: nat, j: nat)
    requires Init(w, s0) && Reaches(w, s0, tr, s) && i < later < |tr| && TakesEffect(tr[i])
    requires tr[later].Return? && tr[later].t == tr[i].t
    ensures LinearizedAt(w, tr, h, i, j)
  {
    hide Reaches, Init, Answer;
    j := EffectReturns(w, s0, tr, s, i);
    assert Marks(tr[later], tr[i].t);
    var i';
    h, i' := EveryReturn(w, s0, tr, s, j);
    assert Marks(tr[i], tr[i].t) && Marks(tr[i'], tr[i].t);
  }

  // ----- Effects, returns and the calls between the two

  /** The weights of the calls that took effect. */
  function Weigh(es: seq<Effect>, weight: Call -> int): int
    decreases |es|
  {
    if es == [] then 0 else Weigh(Front(es), weight) + weight(Last(es).call)
  }

  /** The weights of the calls that returned. */
  function WeighReturns(tr: seq<Label>, weight: Call -> int): int
    decreases |tr|
  {
    if tr == [] then 0 else WeighReturns(Front(tr), weight) + if Last(tr).Return? then weight(Last(tr).call) else 0
  }

  function WeightOf(p: PC, weight: Call -> int): int {
    if HasEffect(p) then weight(p.call) else 0
  }

  /** The weights of the calls that took effect and have not returned. */
  function WeighPending(pcs: seq<PC>, weight: Call -> int): int
    decreases |pcs|
  {
    if pcs == [] then 0 else WeighPending(Front(pcs), weight) + WeightOf(Last(pcs), weight)
  }

  lemma {:induction false} PendingUpdate(pcs: seq<PC>, t: nat, p: PC, weight: Call -> int)
    requires t < |pcs|
    ensures WeighPending(pcs[t := p], weight)
         == WeighPending(pcs, weight) - WeightOf(pcs[t], weight) + WeightOf(p, weight)
    decreases |pcs|
  {
    if t == |pcs| - 1 {
      assert Front(pcs[t := p]) == Front(pcs);
    } else {
      PendingUpdate(Front(pcs), t, p, weight);
      assert Front(pcs[t := p]) == Front(pcs)[t := p];
    }
  }

  lemma {:induction false} NothingPending(pcs: seq<PC>, weight: Call -> int)
    requires forall t :: 0 <= t < |pcs| ==> pcs[t].Idle?
    ensures WeighPending(pcs, weight) == 0
    decreases |pcs|
  {
    if pcs != [] { NothingPending(Front(pcs), weight); }
  }

  lemma StepWeight(w: nat, s: State, l: Label, s': State, weight: Call -> int)
    requires Step(w, s, l, s')
    ensures s'.pc == s.pc[l.t := s'.pc[l.t]]
    ensures WeightOf(s'.pc[l.t], weight)
         == WeightOf(s.pc[l.t], weight)
              + if TakesEffect(l) then weight(l.call) else if l.Return? then -weight(l.call) else 0
  {
  }

  /** Whatever calls are counted by, those that took effect are those that returned and those pending. */
  lemma {:induction false} EffectsReturnOrPend(w: nat, s0: State, tr: seq<Label>, s: State, weight: Call -> int)
    requires Init(w, s0) && Reaches(w, s0, tr, s)
    ensures Weigh(Effects(tr), weight) == WeighReturns(tr, weight) + WeighPending(s.pc, weight)
    decreases |tr|
  {
    if tr == [] {
      NothingPending(s.pc, weight);
    } else {
      var mid := LastStep(w, s0, tr, s);
      var l := Last(tr);
      EffectsReturnOrPend(w, s0, Front(tr), mid, weight);
      StepWeight(w, mid, l, s, weight);
      PendingUpdate(mid.pc, l.t, s.pc[l.t], weight);
      hide Reaches, Step;
      if TakesEffect(l) {
        SnocParts(Effects(Front(tr)), Effect(l.t, l.call, l.seen));
      }
    }
  }

  // ----- Conservation

  /** Calls that, if they touch cell c at all, add to it. */
  function AddingOn(c: nat): Call -> bool {
    (call: Call) => call.at == c ==> call.op.OpExchangeAdd? || call.op.OpIncrement? || call.op.OpDecrement?
  }

  function Delta(op: Op): int {
    match op
    case OpExchangeAdd(v) => v
    case OpIncrement => 1
    case OpDecrement => -1
    case _ => 0
  }

  /** What a call adds to cell c. */
  function DeltaOn(c: nat): Call -> int {
    (call: Call) => if call.at == c then Delta(call.op) else 0
  }

  /** What the calls on cell c added to it. */
  function SumOn(es: seq<Effect>, c: nat): int {
    Weigh(es, DeltaOn(c))
  }

  /** Every call made in the run satisfies p. */
  ghost predicate OnlyCalls(tr: seq<Label>, p: Call -> bool) {
    forall j :: 0 <= j < |tr| && tr[j].Invoke? ==> p(tr[j].call)
  }

  ghost predicate OnlyEffects(es: seq<Effect>, p: Call -> bool) {
    forall k :: 0 <= k < |es| ==> p(es[k].call)
  }

  lemma {:induction false} EffectsComeFromCalls(w: nat, s0: State, tr: seq<Label>, s: State, p: Call -> bool)
    requires Init(w, s0) && Reaches(w, s0, tr, s) && OnlyCalls(tr, p)
    ensures OnlyEffects(Effects(tr), p)
    decreases |tr|
  {
    if tr != [] {
      var mid := LastStep(w, s0, tr, s);
      EffectsComeFromCalls(w, s0, Front(tr), mid, p);
      if TakesEffect(Last(tr)) {
        var h, _ := Progress(w, s0, Front(tr), mid, Last(tr).t);
        assert tr[h].call == Last(tr).call;
      }
    }
  }

  lemma ModAdd(a: int, b: int, m: nat)
    requires m > 0
    ensures (a % m + b) % m == (a + b) % m
  {
    var q, r := (a + b) / m, (a + b) % m;
    assert a % m + b == (q - a / m) * m + r by {
      assert (q - a / m) * m == q * m - a / m * m;
    }
    DivModUnique(a % m + b, m, q - a / m, r);
  }

  /** The word of width w congruent to x. */
  function Wrap(w: nat, x: int): nat {
    x % Pow2(w)
  }

  lemma WrapAdd(w: nat, a: int, b: int)
    ensures Wrap(w, Wrap(w, a) + b) == Wrap(w, a + b)
  {
    ModAdd(a, b, Pow2(w));
  }

  lemma ApplyIsDelta(w: nat, op: Op, v: nat)
    requires op.OpExchangeAdd? || op.OpIncrement? || op.OpDecrement?
    ensures Apply(w, op, v) == Wrap(w, v + Delta(op))
  {
  }

  lemma {:induction false} ReplayConserves(w: nat, mem: seq<nat>, es: seq<Effect>, c: nat)
    requires c < |mem| && mem[c] < Pow2(w) && OnlyEffects(es, AddingOn(c))
    ensures Replay(w, mem, es)[c] == Wrap(w, mem[c] + SumOn(es, c))
    decreases |es|
  {
    hide Apply, Delta, Pow2;
    if es == [] {
      SmallMod(mem[c], Pow2(w));
    } else {
      ReplayConserves(w, mem, Front(es), c);
      if Last(es).call.at == c {
        ApplyIsDelta(w, Last(es).call.op, Replay(w, mem, Front(es))[c]);
      }
      WrapAdd(w, mem[c] + SumOn(Front(es), c), Delta(Last(es).call.op));
    }
  }

  /** The calls on c, seen as a sequential history over cells that start as words. */
  ghost predicate Explains(w: nat, mem: seq<nat>, es: seq<Effect>, c: nat, p: Call -> bool) {
    c < |mem| && mem[c] < Pow2(w) && SeenInOrder(w, mem, es) && OnlyEffects(es, p)
  }

  lemma RunExplained(w: nat, s0: State, tr: seq<Label>, s: State, c: nat, p: Call -> bool)
    requires Init(w, s0) && Reaches(w, s0, tr, s) && c < |s.mem| && OnlyCalls(tr, p)
    ensures Explains(w, s0.mem, Effects(tr), c, p) && s.mem == Replay(w, s0.mem, Effects(tr))
  {
    SequentialHistory(w, s0, tr, s);
    EffectsComeFromCalls(w, s0, tr, s, p);
  }

  predicate Conserved(w: nat, mem: seq<nat>, es: seq<Effect>, mem': seq<nat>, c: nat) {
    c < |mem| && c < |mem'| && mem'[c] == Wrap(w, mem[c] + SumOn(es, c))
  }

  lemma ExplainedConserves(w: nat, mem: seq<nat>, es: seq<Effect>, mem': seq<nat>, c: nat)
    requires Explains(w, mem, es, c, AddingOn(c)) && mem' == Replay(w, mem, es)
    ensures Conserved(w, mem, es, mem', c)
  {
    ReplayConserves(w, mem, es, c);
  }

  /** A cell that is only added to holds its initial value plus all that was added, modulo 2^w. */
  lemma Conservation(w: nat, s0: State, tr: seq<Label>, s: State, c: nat)
    requires Init(w, s0) && Reaches(w, s0, tr, s) && c < |s.mem| && OnlyCalls(tr, AddingOn(c))
    ensures Conserved(w, s0.mem, Effects(tr), s.mem, c)
  {
    RunExplained(w, s0, tr, s, c, AddingOn(c));
    ExplainedConserves(w, s0.mem, Effects(tr), s.mem, c);
  }

  /** In terms of calls that returned: those that took effect and have not returned count as well. */
  lemma ReturnsConserve(w: nat, s0: State, tr: seq<Label>, s: State, c: nat)
    requires Init(w, s0) && Reaches(w, s0, tr, s) && c < |s.mem| && OnlyCalls(tr, AddingOn(c))
    ensures c < |s0.mem|
    ensures s.mem[c] == Wrap(w, s0.mem[c] + WeighReturns(tr, DeltaOn(c)) + WeighPending(s.pc, DeltaOn(c)))
  {
    hide Reaches, Init, Wrap, WeighReturns, WeighPending;
    Conservation(w, s0, tr, s, c);
    EffectsReturnOrPend(w, s0, tr, s, DeltaOn(c));
  }

  /** When all threads are idle the cell holds its initial value plus all that the completed calls added. */
  lemma QuiescentConservation(w: nat, s0: State, tr: seq<Label>, s: State, c: nat)
    requires Init(w, s0) && Reaches(w, s0, tr, s) && c < |s.mem| && OnlyCalls(tr, AddingOn(c))
    requires forall t :: 0 <= t < |s.pc| ==> s.pc[t].Idle?
    ensures c < |s0.mem| && s.mem[c] == Wrap(w, s0.mem[c] + WeighReturns(tr, DeltaOn(c)))
  {
    hide Reaches, Init, Wrap, WeighReturns, WeighPending;
    ReturnsConserve(w, s0, tr, s, c);
    NothingPending(s.pc, DeltaOn(c));
  }

  // ----- Tickets: increments hand out distinct values

  function CountOn(es: seq<Effect>, c: nat): nat
    decreases |es|
  {
    if es == [] then 0 else CountOn(Front(es), c) + if Last(es).call.at == c then 1 else 0
  }

  function IncrementingOn(c: nat): Call -> bool {
    (call: Call) => call.at == c ==> call.op.OpIncrement?
  }

  lemma {:induction false} IncrementsSum(es: seq<Effect>, c: nat)
    requires OnlyEffects(es, IncrementingOn(c))
    ensures SumOn(es, c) == CountOn(es, c)
    decreases |es|
  {
    if es != [] { IncrementsSum(Front(es), c); }
  }

  lemma {:induction false} CountGrows(es: seq<Effect>, c: nat, k: nat)
    requires k < |es| && es[k].call.at == c
    ensures CountOn(es[..k], c) < CountOn(es, c)
    decreases |es|
  {
    if k < |es| - 1 {
      CountGrows(Front(es), c, k);
      assert Front(es)[..k] == es[..k];
    } else {
      assert es[..k] == Front(es);
    }
  }

  /** The value handed to the k-th effect on c. */
  lemma TicketAt(w: nat, mem: seq<nat>, es: seq<Effect>, c: nat, k: nat)
    requires Explains(w, mem, es, c, IncrementingOn(c))
    requires k < |es| && es[k].call.at == c
    ensures Answer(w, es[k].call.op, es[k].seen) == Wrap(w, mem[c] + CountOn(es[..k], c) + 1)
  {
    hide Replay, SeenInOrder, SumOn, CountOn, Apply, Wrap;
    ApplyIsDelta(w, es[k].call.op, es[k].seen);
    SeenAt(w, mem, es, k);
    assert OnlyEffects(es[..k], IncrementingOn(c));
    assert OnlyEffects(es[..k], AddingOn(c));
    ReplayConserves(w, mem, es[..k], c);
    IncrementsSum(es[..k], c);
    WrapAdd(w, mem[c] + CountOn(es[..k], c), 1);
  }

  lemma DistinctResidues(a: int, b: int, m: nat)
    requires m > 0 && a < b < a + m
    ensures a % m != b % m
  {
    if a % m == b % m {
      assert (b / m - a / m) * m == b - a;
      SmallMultiple(b / m - a / m, m);
    }
  }

  lemma TicketsDiffer(w: nat, mem: seq<nat>, es: seq<Effect>, c: nat, k: nat, k': nat)
    requires Explains(w, mem, es, c, IncrementingOn(c))
    requires k < k' < |es| && es[k].call.at == es[k'].call.at == c && CountOn(es, c) <= Pow2(w)
    ensures Answer(w, es[k].call.op, es[k].seen) != Answer(w, es[k'].call.op, es[k'].seen)
  {
    hide Replay, SeenInOrder, SumOn, CountOn, Pow2, Answer;
    TicketAt(w, mem, es, c, k);
    TicketAt(w, mem, es, c, k');
    assert es[..k'][..k] == es[..k];
    CountGrows(es[..k'], c, k);
    CountGrows(es, c, k');
    DistinctResidues(mem[c] + CountOn(es[..k], c) + 1, mem[c] + CountOn(es[..k'], c) + 1, Pow2(w));
  }

  lemma {:induction false} PlacesInOrder(tr: seq<Label>, i: nat, i': nat)
    requires i < i' < |tr| && TakesEffect(tr[i])
    ensures |Effects(tr[..i])| < |Effects(tr[..i'])|
  {
    PlaceOf(tr[..i'], i);
    assert tr[..i'][..i] == tr[..i];
  }

  /** With only increments on a cell, at most 2^w of them, no two returns carry the same value. */
  lemma TicketsAreUnique(w: nat, s0: State, tr: seq<Label>, s: State, c: nat, j: nat, j': nat)
    requires Init(w, s0) && Reaches(w, s0, tr, s) && c < |s.mem| && OnlyCalls(tr, IncrementingOn(c))
    requires CountOn(Effects(tr), c) <= Pow2(w)
    requires j < j' < |tr| && tr[j].Return? && tr[j'].Return? && tr[j].call.at == tr[j'].call.at == c
    ensures tr[j].result != tr[j'].result
  {
    var h, i := EveryReturn(w, s0, tr, s, j);
    var h', i' := EveryReturn(w, s0, tr, s, j');
    ReturnsHaveTheirOwnEffect(w, tr, h, i, j, h', i', j');
    RunExplained(w, s0, tr, s, c, IncrementingOn(c));
    PlaceOf(tr, i);
    PlaceOf(tr, i');
    var k, k' := |Effects(tr[..i])|, |Effects(tr[..i'])|;
    if i < i' {
      PlacesInOrder(tr, i, i');
      TicketsDiffer(w, s0.mem, Effects(tr), c, k, k');
    } else {
      PlacesInOrder(tr, i', i);
      TicketsDiffer(w, s0.mem, Effects(tr), c, k', k);
    }
  }
}
