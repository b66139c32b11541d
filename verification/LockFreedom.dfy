/** Progress of the retry loops: a CAS fails only because another thread changed the cell
  * during the attempt, so a run that is long enough contains completed calls.
  */
module LockFreedom {
  import opened Bits
  import opened Interlocked
  import opened Linearization

  predicate Fails(l: Label) { l.Cas? && l.was != l.seen }

  predicate Changes(w: nat, l: Label) {
    l.Cas? && l.was == l.seen && Apply(w, l.call.op, l.was) != l.was
  }

  /** What thread t has sampled of its cell no longer agrees with memory. */
  predicate Stale(w: nat, s: State, t: nat)
    requires t < |s.pc|
  {
    var p := s.pc[t];
    !p.Idle? && p.call.at < |s.mem| &&
    match p
    case HalfRead(call, high, part) => part != Half(w, high, s.mem[call.at])
    case Ready(call, was) => was != s.mem[call.at]
    case Checking(call, was, seen) => was != seen && call.loop.Reuse? && seen != s.mem[call.at]
    case _ => false
  }

  /** Every plain read in the run reads memory, possibly in two halves. */
  ghost predicate RealReads(tr: seq<Label>) {
    forall j :: 0 <= j < |tr| ==> !tr[j].Misread?
  }

  lemma JoinDiffers(w: nat, high: bool, part: nat, v: nat)
    requires part != Half(w, high, v)
    ensures (if high then Join(w, part, Half(w, false, v)) else Join(w, Half(w, true, v), part)) != v
  {
    Halves(w, v);
    var d := part - v / Pow2(w / 2);
    if high && Join(w, part, Half(w, false, v)) == v {
      assert d * Pow2(w / 2) == 0;
      SmallMultiple(d, Pow2(w / 2));
    }
  }

  /** Only a change made by another thread makes a sample stale, and a failed CAS was stale. */
  lemma StepStale(w: nat, s: State, l: Label, s': State, t: nat)
    requires CallsValid(w, s) && Step(w, s, l, s') && !l.Misread? && t < |s.pc|
    ensures Stale(w, s', t) && !Stale(w, s, t) ==> Changes(w, l) && l.t != t
    ensures Fails(l) && l.t == t ==> Stale(w, s, t) && !Stale(w, s', t)
    ensures Changes(w, l) && l.t == t ==> !Stale(w, s', t)
  {
    if l.ReadRest? && l.t == t {
      var p := s.pc[t];
      var v := s.mem[p.call.at];
      Halves(w, v);
      if p.part != Half(w, p.high, v) {
        JoinDiffers(w, p.high, p.part, v);
      }
    }
  }

  // ----- Counting

  datatype Kind = Failure | Change | Success | Completion | AnyStep

  predicate Is(w: nat, kind: Kind, l: Label) {
    match kind
    case Failure => Fails(l)
    case Change => Changes(w, l)
    case Success => TakesEffect(l)
    case Completion => l.Return?
    case AnyStep => true
  }

  function Count(w: nat, kind: Kind, tr: seq<Label>): nat
    decreases |tr|
  {
    if tr == [] then 0 else Count(w, kind, Front(tr)) + if Is(w, kind, Last(tr)) then 1 else 0
  }

  /** The steps of that kind taken by thread t. */
  function CountOf(w: nat, kind: Kind, tr: seq<Label>, t: nat): nat
    decreases |tr|
  {
    if tr == [] then 0 else CountOf(w, kind, Front(tr), t) + if Is(w, kind, Last(tr)) && Last(tr).t == t then 1 else 0
  }

  /** The steps of that kind taken by the threads below n. */
  function CountBelow(w: nat, kind: Kind, tr: seq<Label>, n: nat): nat {
    if n == 0 then 0 else CountBelow(w, kind, tr, n - 1) + CountOf(w, kind, tr, n - 1)
  }

  lemma {:induction false} CountBelowSnoc(w: nat, kind: Kind, tr: seq<Label>, n: nat)
    requires tr != []
    ensures CountBelow(w, kind, tr, n)
         == CountBelow(w, kind, Front(tr), n) + if Is(w, kind, Last(tr)) && Last(tr).t < n then 1 else 0
  {
    if n > 0 { CountBelowSnoc(w, kind, tr, n - 1); }
  }

  lemma {:induction false} CountBelowNothing(w: nat, kind: Kind, n: nat)
    ensures CountBelow(w, kind, [], n) == 0
  {
    if n > 0 { CountBelowNothing(w, kind, n - 1); }
  }

  /** Counting thread by thread counts every step. */
  lemma {:induction false} CountByThread(w: nat, kind: Kind, tr: seq<Label>, n: nat)
    requires forall j :: 0 <= j < |tr| ==> tr[j].t < n
    ensures CountBelow(w, kind, tr, n) == Count(w, kind, tr)
    decreases |tr|
  {
    if tr == [] {
      CountBelowNothing(w, kind, n);
    } else {
      CountByThread(w, kind, Front(tr), n);
      CountBelowSnoc(w, kind, tr, n);
    }
  }

  lemma {:induction false} ThreadsExist(w: nat, s0: State, tr: seq<Label>, s: State)
    requires Reaches(w, s0, tr, s)
    ensures forall j :: 0 <= j < |tr| ==> tr[j].t < |s.pc|
    decreases |tr|
  {
    if tr != [] {
      var mid := LastStep(w, s0, tr, s);
      ThreadsExist(w, s0, Front(tr), mid);
      forall j | 0 <= j < |tr| ensures tr[j].t < |s.pc| {
        assert j < |tr| - 1 ==> tr[j] == Front(tr)[j];
      }
    }
  }

  // ----- Failures are paid for by the changes of other threads

  lemma {:induction false} FailuresOfOne(w: nat, s0: State, tr: seq<Label>, s: State, t: nat)
    requires Init(w, s0) && Reaches(w, s0, tr, s) && RealReads(tr) && t < |s.pc|
    ensures CountOf(w, Failure, tr, t) + (if Stale(w, s, t) then 1 else 0)
         <= Count(w, Change, tr) - CountOf(w, Change, tr, t)
    decreases |tr|
  {
    if tr != [] {
      var mid := LastStep(w, s0, tr, s);
      CallsStayValid(w, s0, Front(tr), mid);
      StepStale(w, mid, Last(tr), s, t);
      FailuresOfOne(w, s0, Front(tr), mid, t);
    }
  }

  lemma {:induction false} FailuresBelow(w: nat, s0: State, tr: seq<Label>, s: State, n: nat, c: int)
    requires Init(w, s0) && Reaches(w, s0, tr, s) && RealReads(tr) && n <= |s.pc| && c == Count(w, Change, tr)
    ensures CountBelow(w, Failure, tr, n) <= n * c - CountBelow(w, Change, tr, n)
  {
    if n > 0 {
      FailuresBelow(w, s0, tr, s, n - 1, c);
      FailuresOfOne(w, s0, tr, s, n - 1);
      OneLess(n, c);
    }
  }

  /** In a run of n threads with C value-changing successes, at most (n - 1) * C attempts fail. */
  lemma FailureBound(w: nat, s0: State, tr: seq<Label>, s: State)
    requires Init(w, s0) && Reaches(w, s0, tr, s) && RealReads(tr)
    ensures Count(w, Failure, tr) <= (|s.pc| - 1) * Count(w, Change, tr)
  {
    ThreadsExist(w, s0, tr, s);
    FailuresBelow(w, s0, tr, s, |s.pc|, Count(w, Change, tr));
    CountByThread(w, Failure, tr, |s.pc|);
    CountByThread(w, Change, tr, |s.pc|);
    OneLess(|s.pc|, Count(w, Change, tr));
  }

  // ----- Lock-freedom

  /** How many steps of its current attempt a thread has behind it. */
  function Rank(p: PC): nat {
    match p
    case Idle => 0
    case Reading(_) => 1
    case HalfRead(_, _, _) => 2
    case Ready(_, _) => 3
    case Checking(_, was, seen) => if was == seen then 4 else 0
  }

  /** What one step adds for thread t: a step, and perhaps a return or a failure. */
  lemma StepRank(w: nat, s: State, l: Label, s': State, t: nat)
    requires Step(w, s, l, s') && t < |s.pc|
    ensures Rank(s'.pc[t]) + (if l.t == t && l.Return? then 5 else 0) + (if l.t == t && Fails(l) then 4 else 0)
         >= Rank(s.pc[t]) + (if l.t == t then 1 else 0)
  {
  }

  /** A thread spends at most five steps on a call and four more on each failed attempt. */
  lemma {:induction false} StepsOfOne(w: nat, s0: State, tr: seq<Label>, s: State, t: nat)
    requires Init(w, s0) && Reaches(w, s0, tr, s) && t < |s.pc|
    ensures CountOf(w, AnyStep, tr, t)
         <= 5 * CountOf(w, Completion, tr, t) + 4 * CountOf(w, Failure, tr, t) + Rank(s.pc[t])
    decreases |tr|
  {
    if tr != [] {
      var mid := LastStep(w, s0, tr, s);
      assert |mid.pc| == |s.pc|;
      hide Step, Reaches, Rank, Fails;
      StepRank(w, mid, Last(tr), s, t);
      StepsOfOne(w, s0, Front(tr), mid, t);
    }
  }

  lemma {:induction false} StepsBelow(w: nat, s0: State, tr: seq<Label>, s: State, n: nat)
    requires Init(w, s0) && Reaches(w, s0, tr, s) && n <= |s.pc|
    ensures CountBelow(w, AnyStep, tr, n)
         <= 5 * CountBelow(w, Completion, tr, n) + 4 * CountBelow(w, Failure, tr, n) + 4 * n
  {
    hide Reaches, CountOf, Init;
    if n > 0 {
      StepsBelow(w, s0, tr, s, n - 1);
      StepsOfOne(w, s0, tr, s, n - 1);
    }
  }

  lemma {:induction false} CountAll(w: nat, tr: seq<Label>)
    ensures Count(w, AnyStep, tr) == |tr|
    decreases |tr|
  {
    if tr != [] { CountAll(w, Front(tr)); }
  }

  /** A run of n threads, R returns and C value-changing successes has at most 5R + 4(n - 1)C + 4n steps. */
  lemma RunLengthBound(w: nat, s0: State, tr: seq<Label>, s: State)
    requires Init(w, s0) && Reaches(w, s0, tr, s) && RealReads(tr)
    ensures |tr| <= 5 * Count(w, Completion, tr) + 4 * ((|s.pc| - 1) * Count(w, Change, tr)) + 4 * |s.pc|
  {
    ThreadsExist(w, s0, tr, s);
    StepsBelow(w, s0, tr, s, |s.pc|);
    CountByThread(w, AnyStep, tr, |s.pc|);
    CountByThread(w, Completion, tr, |s.pc|);
    CountByThread(w, Failure, tr, |s.pc|);
    CountAll(w, tr);
    FailureBound(w, s0, tr, s);
  }

  /** Each success of a thread has been returned, except the one its current call may hold. */
  lemma {:induction false} ReturnsOfOne(w: nat, s0: State, tr: seq<Label>, s: State, t: nat)
    requires Init(w, s0) && Reaches(w, s0, tr, s) && t < |s.pc|
    ensures CountOf(w, Success, tr, t) == CountOf(w, Completion, tr, t) + if HasEffect(s.pc[t]) then 1 else 0
    decreases |tr|
  {
    if tr != [] {
      var mid := LastStep(w, s0, tr, s);
      ReturnsOfOne(w, s0, Front(tr), mid, t);
    }
  }

  lemma {:induction false} ReturnsBelow(w: nat, s0: State, tr: seq<Label>, s: State, n: nat)
    requires Init(w, s0) && Reaches(w, s0, tr, s) && n <= |s.pc|
    ensures CountBelow(w, Completion, tr, n) <= CountBelow(w, Success, tr, n)
  {
    if n > 0 {
      ReturnsBelow(w, s0, tr, s, n - 1);
      ReturnsOfOne(w, s0, tr, s, n - 1);
    }
  }

  lemma {:induction false} CountEffects(w: nat, tr: seq<Label>)
    ensures Count(w, Success, tr) == |Effects(tr)|
    ensures Count(w, Change, tr) <= |Effects(tr)|
    decreases |tr|
  {
    if tr != [] { CountEffects(w, Front(tr)); }
  }

  lemma BoundAlgebra(n: int, r: int, c: int, e: int)
    requires 1 <= n && r <= e && c <= e
    ensures 5 * r + 4 * ((n - 1) * c) + 4 * n <= (4 * n + 1) * e + 4 * n
  {
    MulOrder(c, e, n - 1);
    assert (4 * n + 1) * e == 5 * e + 4 * (e * (n - 1));
  }

  /** Lock-freedom: a run of n threads in which E calls took effect has at most (4n + 1)E + 4n steps,
    * so every longer run has made another call take effect.
    */
  lemma LockFree(w: nat, s0: State, tr: seq<Label>, s: State)
    requires Init(w, s0) && Reaches(w, s0, tr, s) && RealReads(tr)
    ensures |tr| <= (4 * |s.pc| + 1) * |Effects(tr)| + 4 * |s.pc|
  {
    hide Reaches, Count, CountBelow, Init, RealReads, Effects;
    ThreadsExist(w, s0, tr, s);
    if tr != [] {
      RunLengthBound(w, s0, tr, s);
      ReturnsBelow(w, s0, tr, s, |s.pc|);
      CountByThread(w, Completion, tr, |s.pc|);
      CountByThread(w, Success, tr, |s.pc|);
      CountEffects(w, tr);
      assert tr[0].t < |s.pc|;
      BoundAlgebra(|s.pc|, Count(w, Completion, tr), Count(w, Change, tr), |Effects(tr)|);
    }
  }

  /** One thread incrementing a cell that holds zero. */
  const LONE: Call := Call(0, OpIncrement, Reread)

  /** Real reads are needed: a single thread whose reads may return anything can fail any number of times. */
  lemma {:induction false} MisreadsStarve(w: nat, n: nat) returns (tr: seq<Label>)
    ensures Init(w, State([0], [Idle])) && Reaches(w, State([0], [Idle]), tr, State([0], [Reading(LONE)]))
    ensures Count(w, Failure, tr) == n && Count(w, Success, tr) == 0
  {
    var s0, reading := State([0], [Idle]), State([0], [Reading(LONE)]);
    if n == 0 {
      OneMoreStep(w, s0, [], s0, Invoke(0, LONE), reading);
      tr := [] + [Invoke(0, LONE)];
    } else {
      var before := MisreadsStarve(w, n - 1);
      var l1, l2, l3 := Misread(0, 1), Cas(0, LONE, 1, 0), Again(0);
      var ready, checked := State([0], [Ready(LONE, 1)]), State([0], [Checking(LONE, 1, 0)]);
      OneMoreStep(w, s0, before, reading, l1, ready);
      OneMoreStep(w, s0, before + [l1], ready, l2, checked);
      OneMoreStep(w, s0, before + [l1] + [l2], checked, l3, reading);
      CountSnoc(w, before, l1);
      CountSnoc(w, before + [l1], l2);
      CountSnoc(w, before + [l1] + [l2], l3);
      tr := before + [l1] + [l2] + [l3];
    }
  }

  lemma CountSnoc(w: nat, tr: seq<Label>, l: Label)
    ensures forall kind :: Count(w, kind, tr + [l]) == Count(w, kind, tr) + if Is(w, kind, l) then 1 else 0
  {
    SnocParts(tr, l);
  }

  /** No thread is ever blocked: a thread inside a call can take a step that involves no arbitrary read. */
  lemma NeverBlocked(w: nat, s: State, t: nat) returns (l: Label, s': State)
    requires CallsValid(w, s) && t < |s.pc| && !s.pc[t].Idle?
    ensures l.t == t && !l.Misread? && Step(w, s, l, s')
  {
    match s.pc[t]
    case Reading(call) =>
      l := ReadWhole(t);
      s' := s.(pc := s.pc[t := Ready(call, s.mem[call.at])]);
    case HalfRead(call, high, part) =>
      var rest := Half(w, !high, s.mem[call.at]);
      l := ReadRest(t);
      s' := s.(pc := s.pc[t := Ready(call, if high then Join(w, part, rest) else Join(w, rest, part))]);
    case Ready(call, was) =>
      var seen := s.mem[call.at];
      l := Cas(t, call, was, seen);
      s' := State(if seen == was then s.mem[call.at := Apply(w, call.op, was)] else s.mem,
                  s.pc[t := Checking(call, was, seen)]);
    case Checking(call, was, seen) =>
      if was == seen {
        l := Return(t, call, ReturnValue(w, call, was, seen));
        s' := s.(pc := s.pc[t := Idle]);
      } else {
        l := Again(t);
        s' := s.(pc := s.pc[t := if call.loop.Reuse? then Ready(call, seen) else Reading(call)]);
      }
  }

  // ----- The cause of a failure

  /** The moment thread t took the sample it is working with: a whole read, a first half read,
    * or a failed CAS whose value the loop reuses.
    */
  predicate Samples(l: Label, t: nat) {
    l.t == t && (l.ReadWhole? || l.ReadHalf? || (Fails(l) && l.call.loop.Reuse?))
  }

  predicate HoldsSample(p: PC) {
    p.HalfRead? || p.Ready? || (p.Checking? && p.was != p.seen && p.call.loop.Reuse?)
  }

  /** The sample thread t works with was taken at i, and t has attempted no CAS with it yet. */
  ghost predicate SampledAt(tr: seq<Label>, t: nat, i: nat) {
    && i < |tr| && Samples(tr[i], t)
    && forall j {:trigger tr[j]} :: i < j < |tr| && tr[j].t == t ==> !tr[j].Cas?
  }

  ghost predicate ChangedAt(w: nat, tr: seq<Label>, t: nat, at: nat, k: nat) {
    k < |tr| && Changes(w, tr[k]) && tr[k].call.at == at && tr[k].t != t
  }

  lemma StepSample(w: nat, s: State, l: Label, s': State, t: nat)
    requires CallsValid(w, s) && Step(w, s, l, s') && !l.Misread? && t < |s.pc| && HoldsSample(s'.pc[t])
    ensures Samples(l, t) ==> !Stale(w, s', t)
    ensures !Samples(l, t) ==> HoldsSample(s.pc[t]) && s'.pc[t].call == s.pc[t].call && (l.t == t ==> !l.Cas?)
    ensures Stale(w, s', t) && !Stale(w, s, t) ==> Changes(w, l) && l.call.at == s'.pc[t].call.at && l.t != t
  {
    StepStale(w, s, l, s', t);
  }

  /** A thread holding a sample took it at i; if the sample is stale, another thread changed the cell at k > i. */
  lemma {:induction false} StaleHasCause(w: nat, s0: State, tr: seq<Label>, s: State, t: nat) returns (i: nat, k: nat)
    requires Init(w, s0) && Reaches(w, s0, tr, s) && RealReads(tr) && t < |s.pc| && HoldsSample(s.pc[t])
    ensures SampledAt(tr, t, i)
    ensures Stale(w, s, t) ==> i < k && ChangedAt(w, tr, t, s.pc[t].call.at, k)
    decreases |tr|
  {
    var mid := LastStep(w, s0, tr, s);
    CallsStayValid(w, s0, Front(tr), mid);
    StepSample(w, mid, Last(tr), s, t);
    hide Reaches, Step, Stale, CallsValid;
    i, k := |tr| - 1, |tr| - 1;
    if !Samples(Last(tr), t) {
      i, k := StaleHasCause(w, s0, Front(tr), mid, t);
      forall j | i < j < |tr| && tr[j].t == t ensures !tr[j].Cas? {
        assert j < |tr| - 1 ==> tr[j] == Front(tr)[j];
      }
      if !Stale(w, mid, t) {
        k := |tr| - 1;
      }
    }
  }

  /** A CAS that fails at j worked with a sample taken at i, its thread attempted no CAS in between,
    * and at some k between them a CAS of another thread changed the same cell.
    */
  lemma FailureHasCause(w: nat, s0: State, tr: seq<Label>, s: State, j: nat) returns (i: nat, k: nat)
    requires Init(w, s0) && Reaches(w, s0, tr, s) && RealReads(tr) && j < |tr| && Fails(tr[j])
    ensures i < k < j && SampledAt(tr[..j], tr[j].t, i)
    ensures ChangedAt(w, tr, tr[j].t, tr[j].call.at, k)
  {
    var a, b := Prefix(w, s0, tr, s, j);
    CallsStayValid(w, s0, tr[..j], a);
    StepStale(w, a, tr[j], b, tr[j].t);
    i, k := StaleHasCause(w, s0, tr[..j], a, tr[j].t);
  }
}
