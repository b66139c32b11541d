/** The do/while bodies of winbase.h, run by one thread while other threads keep storing to the cell. */
module InterlockedLoops {
  import opened Bits
  import opened Interlocked
  import opened Linearization

  /** The value of a cell after some stores. */
  function ValueAfter(value: nat, stores: seq<nat>): nat {
    if stores == [] then value else Last(stores)
  }

  lemma StoredAgain(value: nat, first: seq<nat>, second: seq<nat>)
    ensures ValueAfter(ValueAfter(value, first), second) == ValueAfter(value, first + second)
  {
  }

  /** Exactly one atomic update: after some stores of the other threads the call saw the value they left, replaced it by
    * what the operation makes of it and answered accordingly.
    */
  ghost predicate TookEffectAfter(w: nat, op: Op, value: nat, others: seq<nat>, value': nat, answer: nat) {
    Means(w, op, ValueAfter(value, others), value', answer)
  }

  /** The same, for a cell whose stores are history before the call and history' after it: the call stored once. */
  ghost predicate TookEffect(w: nat, op: Op, value: nat, history: seq<nat>, value': nat, history': seq<nat>,
                             answer: nat)
  {
    exists others: seq<nat> ::
      history' == history + others + [value'] && TookEffectAfter(w, op, value, others, value', answer)
  }

  lemma RereadAnswer(w: nat, op: Op, was: nat)
    ensures ReturnValue(w, Call(0, op, Reread), was, was) == Answer(w, op, was)
  {
  }

  class SharedCell {
    const width: nat
    var value: nat
    /** How many more stores the other threads make; what they store is up to them, then. */
    var budget: nat
    /** Every value stored so far, by any thread, in order. */
    ghost var history: seq<nat>

    /** The cell holds a word, as all stores do. */
    predicate Valid()
      reads this
    {
      value < Pow2(width)
    }

    constructor (width: nat, value: nat, budget: nat)
      requires value < Pow2(width)
      ensures Valid()
      ensures this.width == width && this.value == value && this.budget == budget && history == []
    {
      this.width, this.value, this.budget, history := width, value, budget, [];
    }

    /** The other threads have stored the given values since the cell held value0, with history0 and budget0. */
    ghost predicate Since(value0: nat, history0: seq<nat>, budget0: nat, others: seq<nat>)
      reads this
    {
      history == history0 + others && value == ValueAfter(value0, others) && budget + |others| <= budget0
    }

    /** Other threads run for a while. */
    method Interfere() returns (ghost others: seq<nat>)
      requires Valid()
      modifies this
      ensures Valid()
      ensures Since(old(value), old(history), old(budget), others)
    {
      others := [];
      var more: bool := *;
      while more && budget > 0
        invariant Valid() && Since(old(value), old(history), old(budget), others)
        decreases budget
      {
        var v: nat :| v < Pow2(width);
        value, budget, history, others := v, budget - 1, history + [v], others + [v];
        more := *;
      }
    }

    method CompareExchange(exchange: nat, comparand: nat) returns (seen: nat)
      requires Valid() && (value == comparand ==> exchange < Pow2(width))
      modifies this`value, this`history
      ensures Valid() && seen == old(value)
      ensures value == if seen == comparand then exchange else old(value)
      ensures history == if seen == comparand then old(history) + [exchange] else old(history)
    {
      seen := value;
      if seen == comparand {
        value, history := exchange, history + [exchange];
      }
    }

    /** The plain read of a 64-bit cell on a 32-bit machine: two halves, in either order,
      * with other threads running between the halves and before the value is used.
      */
    method TornRead() returns (v: nat, ghost others: seq<nat>)
      requires Valid()
      modifies this
      ensures Valid() && Since(old(value), old(history), old(budget), others)
      ensures others == [] ==> v == value
    {
      var high: bool := *;
      var first := Half(width, high, value);
      ghost var between := Interfere();
      var second := Half(width, !high, value);
      v := if high then Join(width, first, second) else Join(width, second, first);
      ghost var after := Interfere();
      others := between + after;
      StoredAgain(old(value), between, after);
      Halves(width, old(value));
    }

    /** InterlockedAnd, InterlockedOr and InterlockedXor: the loop reuses the value a failed CAS returned. */
    method UpdateReusing(op: Op) returns (j: nat)
      requires Valid() && ValidOp(width, op) && (op.OpAnd? || op.OpOr? || op.OpXor?)
      modifies this
      ensures Valid() && TookEffect(width, op, old(value), old(history), value, history, j)
    {
      hide Apply, Pow2, Becomes;
      var i;
      var done := false;
      ghost var others := Interfere();
      j := value;
      while !done
        invariant Valid() && (!done ==> Since(old(value), old(history), old(budget), others) && j == value)
        invariant done ==> TookEffect(width, op, old(value), old(history), value, history, j)
        decreases budget, !done
      {
        i := j;
        ghost var more := Interfere();
        StoredAgain(old(value), others, more);
        others := others + more;
        if value == i {
          ApplyIsWord(width, op, i);
          ApplyMeans(width, op, i);
        }
        j := CompareExchange(Apply(width, op, i), i);
        done := i == j;
        assert done ==> TookEffectAfter(width, op, old(value), others, value, j);
      }
    }

    /** The 64-bit loops: every attempt reads the cell again, and the read may be torn. */
    method UpdateRereading(op: Op) returns (answer: nat)
      requires Valid() && ValidOp(width, op)
      modifies this
      ensures Valid() && TookEffect(width, op, old(value), old(history), value, history, answer)
    {
      hide Apply, Answer, ReturnValue, Pow2, Means;
      var was := 0;
      var done := false;
      ghost var others: seq<nat> := [];
      while !done
        invariant Valid() && (!done ==> Since(old(value), old(history), old(budget), others))
        invariant done ==> TookEffect(width, op, old(value), old(history), value, history, Answer(width, op, was))
        decreases budget, !done
      {
        ghost var more;
        was, more := TornRead();
        StoredAgain(old(value), others, more);
        others := others + more;
        if value == was {
          ApplyIsWord(width, op, was);
          ApplyMeans(width, op, was);
        }
        var seen := CompareExchange(Apply(width, op, was), was);
        done := seen == was;
        assert done ==> TookEffectAfter(width, op, old(value), others, value, Answer(width, op, was));
      }
      RereadAnswer(width, op, was);
      answer := ReturnValue(width, Call(0, op, Reread), was, was);
    }
  }

  // ----- Calls in the step machine keep the contract of the loops

  /** The values that the calls of a run store to a cell, in order. */
  function Stores(w: nat, tr: seq<Label>, at: nat): seq<nat>
    decreases |tr|
  {
    if tr == [] then []
    else if TakesEffect(Last(tr)) && Last(tr).call.at == at then
      Stores(w, Front(tr), at) + [Apply(w, Last(tr).call.op, Last(tr).seen)]
    else Stores(w, Front(tr), at)
  }

  lemma {:induction false} SplitRun(w: nat, s0: State, tr: seq<Label>, s: State, h: nat) returns (mid: State)
    requires Reaches(w, s0, tr, s) && h <= |tr|
    ensures Reaches(w, s0, tr[..h], mid) && Reaches(w, mid, tr[h..], s)
    decreases |tr|
  {
    hide Reaches, Step;
    if h == |tr| {
      mid := s;
      NoSteps(w, s);
      assert tr[..h] == tr && tr[h..] == [];
    } else {
      var before := LastStep(w, s0, tr, s);
      mid := SplitRun(w, s0, Front(tr), before, h);
      assert Front(tr)[..h] == tr[..h] && tr[h..] == Front(tr)[h..] + [Last(tr)];
      OneMoreStep(w, mid, Front(tr)[h..], before, Last(tr), s);
    }
  }

  lemma {:induction false} StoresReach(w: nat, a: State, tr: seq<Label>, b: State, at: nat)
    requires Reaches(w, a, tr, b) && at < |a.mem|
    ensures |b.mem| == |a.mem|
    ensures b.mem[at] == ValueAfter(a.mem[at], Stores(w, tr, at))
    decreases |tr|
  {
    if tr != [] {
      var mid := LastStep(w, a, tr, b);
      StoresReach(w, a, Front(tr), mid, at);
      StepMemory(w, mid, Last(tr), b);
    }
  }

  /** Every completed call in every run keeps the contract of the loops above: from its invocation at h to its effect
    * at i the other threads stored some values, and it updated the last of them.
    */
  lemma CallTakesEffect(w: nat, s0: State, tr: seq<Label>, s: State, j: nat)
    returns (h: nat, i: nat, a: State, b: State)
    requires Init(w, s0) && Reaches(w, s0, tr, s) && j < |tr| && tr[j].Return?
    ensures LinearizedAt(w, tr, h, i, j) && Reaches(w, s0, tr[..h], a) && Reaches(w, s0, tr[..i + 1], b)
    ensures var call := tr[j].call;
            && call.at < |a.mem| && call.at < |b.mem|
            && TookEffect(w, call.op, a.mem[call.at], [], b.mem[call.at], Stores(w, tr[h..i + 1], call.at),
                          tr[j].result)
  {
    hide Reaches, Init, Step, Apply, Answer, Becomes;
    h, i := EveryReturn(w, s0, tr, s, j);
    b := SplitRun(w, s0, tr, s, i + 1);
    a := SplitRun(w, s0, tr[..i + 1], b, h);
    var during := tr[..i + 1][h..];
    assert tr[..i + 1][..h] == tr[..h] && Front(during) == tr[h..i] && Last(during) == tr[i];
    var mid := LastStep(w, a, during, b);
    StepMemory(w, mid, tr[i], b);
    var at := tr[j].call.at;
    SameCells(w, a, tr[h..i], mid);
    StoresReach(w, a, tr[h..i], mid, at);
    assert tr[h..i + 1] == during;
    var before, after := EffectMeans(w, s0, tr, s, i);
    StepMemory(w, before, tr[i], after);
    assert TookEffectAfter(w, tr[j].call.op, a.mem[at], Stores(w, tr[h..i], at), b.mem[at], tr[j].result);
    assert Stores(w, during, at) == [] + Stores(w, tr[h..i], at) + [b.mem[at]];
  }

  lemma {:induction false} SameCells(w: nat, a: State, tr: seq<Label>, b: State)
    requires Reaches(w, a, tr, b)
    ensures |b.mem| == |a.mem|
    decreases |tr|
  {
    if tr != [] {
      var mid := LastStep(w, a, tr, b);
      SameCells(w, a, Front(tr), mid);
      StepMemory(w, mid, Last(tr), b);
    }
  }
}
