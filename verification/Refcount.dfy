/**
  The lock-free reference count: any number of threads running the compare-and-swap loops of
  refcount_c11.c, interleaved step by step and with spurious failures, against the locked counter of
  refcount_lock.c.
 */
module Refcount {
  import opened Words

  const REFCOUNT_MAX := 0xffff_ffff

  datatype Kind = Inc | Dec

  /** What a call ends with: nothing, an answer to "was that the last reference", or abort. */
  datatype Outcome = Counted | Released(last: bool) | Aborted

  // ---------------------------------------------------------------- the locked counter

  /** refcount_lock.c: one call, made while holding the lock. */
  function Locked(count: nat, kind: Kind): (nat, Outcome)
    requires count <= REFCOUNT_MAX
  {
    match kind
    case Inc => (if count < REFCOUNT_MAX then count + 1 else count, Counted)
    case Dec =>
      if count == 0 then (count, Aborted)
      else
        var after := if count < REFCOUNT_MAX then count - 1 else count;
        (after, Released(after == 0))
  }

  /** The counter of refcount_lock.c; each method runs while the lock is held. */
  class LockedCount {
    var count: nat

    constructor (count: nat)
      ensures this.count == count
    {
      this.count := count;
    }

    /** CRYPTO_refcount_inc */
    method Increment()
      requires count <= REFCOUNT_MAX
      modifies this
      ensures count <= REFCOUNT_MAX && (count, Counted) == Locked(old(count), Inc)
    {
      if count < REFCOUNT_MAX {
        count := count + 1;
      }
    }

    /** CRYPTO_refcount_dec_and_test_zero */
    method DecAndTestZero() returns (outcome: Outcome)
      requires count <= REFCOUNT_MAX
      modifies this
      ensures count <= REFCOUNT_MAX && (count, outcome) == Locked(old(count), Dec)
    {
      if count == 0 {
        return Aborted;
      }
      if count < REFCOUNT_MAX {
        count := count - 1;
      }
      return Released(count == 0);
    }
  }

  // ---------------------------------------------------------------- threads and their steps

  /** Where a thread is: outside, before the first load, or in the loop with its local `expected`. */
  datatype Local = Idle | Called(kind: Kind) | Loop(kind: Kind, expected: nat) | Finished(outcome: Outcome)

  datatype State = State(count: nat, threads: seq<Local>)

  /** `Turn` is one turn of the loop; the weak exchange may fail although the values are equal. */
  datatype Action = Invoke(t: nat, kind: Kind) | Load(t: nat) | Turn(t: nat, spurious: bool) | Respond(t: nat)

  /** atomic_compare_exchange_weak: the new value of the counter and of `expected`. */
  function Exchange(count: nat, expected: nat, newValue: nat, spurious: bool): (bool, nat, nat)
  {
    if count == expected && !spurious then (true, newValue, expected) else (false, count, count)
  }

  function Step(s: State, a: Action): State
  {
    if a.t >= |s.threads| then s
    else
      match (a, s.threads[a.t])
      case (Invoke(t, kind), Idle) => s.(threads := s.threads[t := Called(kind)])
      case (Load(t), Called(kind)) => s.(threads := s.threads[t := Loop(kind, s.count)])
      case (Turn(t, spurious), Loop(Inc, expected)) =>
        if expected == REFCOUNT_MAX then s.(threads := s.threads[t := Finished(Counted)])
        else
          var (ok, count, actual) := Exchange(s.count, expected, expected + 1, spurious);
          State(count, s.threads[t := if ok then Finished(Counted) else Loop(Inc, actual)])
      case (Turn(t, spurious), Loop(Dec, expected)) =>
        if expected == 0 then s.(threads := s.threads[t := Finished(Aborted)])
        else if expected == REFCOUNT_MAX then s.(threads := s.threads[t := Finished(Released(false))])
        else
          var (ok, count, actual) := Exchange(s.count, expected, expected - 1, spurious);
          State(count, s.threads[t := if ok then Finished(Released(expected - 1 == 0)) else Loop(Dec, actual)])
      case (Respond(t), Finished(outcome)) => if outcome == Aborted then s else s.(threads := s.threads[t := Idle])
      case (_, _) => s
  }

  /** Whoever has read the saturated value finds the counter saturated for good. */
  predicate LocalOk(count: nat, l: Local)
  {
    l.Loop? ==> l.expected <= REFCOUNT_MAX && (l.expected == REFCOUNT_MAX ==> count == REFCOUNT_MAX)
  }

  predicate Ok(s: State)
  {
    s.count <= REFCOUNT_MAX && forall t :: 0 <= t < |s.threads| ==> LocalOk(s.count, s.threads[t])
  }

  /** No step wraps the counter, none moves it by more than one, and saturation is never left. */
  lemma {:induction false} StepKeepsOk(s: State, a: Action)
    requires Ok(s)
    ensures Ok(Step(s, a)) && |Step(s, a).threads| == |s.threads|
    ensures s.count == 0xffff_ffff ==> Step(s, a).count == 0xffff_ffff
    ensures Step(s, a).count <= 0xffff_ffff
    ensures s.count - 1 <= Step(s, a).count <= s.count + 1
  {
    var after := Step(s, a);
    forall t | 0 <= t < |after.threads| ensures LocalOk(after.count, after.threads[t]) {
      assert LocalOk(s.count, s.threads[t]);
    }
  }

  // ---------------------------------------------------------------- linearization

  /** A call taking effect. */
  datatype Entry = Entry(t: nat, kind: Kind, outcome: Outcome)

  /**
    The call that takes effect in a step, if one does: with the exchange that succeeds, on finding the
    counter saturated, and for a call that will abort with the reading of zero.
   */
  function Effect(s: State, a: Action): Option<Entry>
  {
    if a.t >= |s.threads| then None
    else
      match (a, s.threads[a.t])
      case (Load(t), Called(Dec)) => if s.count == 0 then Some(Entry(t, Dec, Aborted)) else None
      case (Turn(t, spurious), Loop(Inc, expected)) =>
        if expected == REFCOUNT_MAX || (s.count == expected && !spurious) then Some(Entry(t, Inc, Counted)) else None
      case (Turn(t, spurious), Loop(Dec, expected)) =>
        if expected == 0 then None
        else if expected == REFCOUNT_MAX then Some(Entry(t, Dec, Released(false)))
        else if s.count == expected && !spurious then Some(Entry(t, Dec, Released(expected == 1)))
        else if s.count == 0 then Some(Entry(t, Dec, Aborted))
        else None
      case (_, _) => None
  }

  /** A step does nothing to the counter, or exactly what one locked call does. */
  lemma {:induction false} StepRefinesLocked(s: State, a: Action)
    requires Ok(s)
    ensures match Effect(s, a)
            case None => Step(s, a).count == s.count
            case Some(e) => Locked(s.count, e.kind) == (Step(s, a).count, e.outcome)
  {
    if a.t < |s.threads| { assert LocalOk(s.count, s.threads[a.t]); }
  }

  function Run(s: State, actions: seq<Action>): State
  {
    if actions == [] then s else Step(Run(s, actions[..|actions| - 1]), actions[|actions| - 1])
  }

  /** The calls of a run in the order in which they take effect. */
  function Log(s: State, actions: seq<Action>): seq<Entry>
  {
    if actions == [] then []
    else
      var before := actions[..|actions| - 1];
      Log(s, before) + match Effect(Run(s, before), actions[|actions| - 1])
                       case None => []
                       case Some(e) => [e]
  }

  /** The locked counter after these calls, provided each of them ends as it says. */
  function Replay(count: nat, log: seq<Entry>): Option<nat>
    requires count <= REFCOUNT_MAX
    ensures Replay(count, log).Some? ==> Replay(count, log).value <= REFCOUNT_MAX
  {
    if log == [] then Some(count)
    else
      var e := log[|log| - 1];
      match Replay(count, log[..|log| - 1])
      case None => None
      case Some(c) => if Locked(c, e.kind).1 == e.outcome then Some(Locked(c, e.kind).0) else None
  }

  /** Every interleaving is a sequence of locked calls, made one at a time, with the same results. */
  lemma {:induction false} Linearizes(s: State, actions: seq<Action>)
    requires Ok(s)
    ensures Ok(Run(s, actions)) && |Run(s, actions).threads| == |s.threads|
    ensures Replay(s.count, Log(s, actions)) == Some(Run(s, actions).count)
    decreases |actions|
  {
    hide Step, Effect, Locked, Ok;
    if actions != [] {
      var before, a := actions[..|actions| - 1], actions[|actions| - 1];
      Linearizes(s, before);
      StepKeepsOk(Run(s, before), a);
      StepRefinesLocked(Run(s, before), a);
      var log := Log(s, before);
      match Effect(Run(s, before), a)
      case None =>
        assert Log(s, actions) == log;
      case Some(e) =>
        assert (log + [e])[..|log + [e]| - 1] == log;
    }
  }

  /** Each call of the log, made on the locked counter at its turn, ends as the log says. */
  lemma {:induction false} ReplayedCall(count: nat, log: seq<Entry>, k: nat)
    requires count <= 0xffff_ffff && Replay(count, log).Some? && k < |log|
    ensures Replay(count, log[..k]).Some? && Replay(count, log[..k + 1]).Some?
    ensures Locked(Replay(count, log[..k]).value, log[k].kind) == (Replay(count, log[..k + 1]).value, log[k].outcome)
    decreases |log|
  {
    hide Locked;
    if k < |log| - 1 {
      ReplayedCall(count, log[..|log| - 1], k);
      assert log[..|log| - 1][..k] == log[..k] && log[..|log| - 1][..k + 1] == log[..k + 1];
    } else {
      assert log[..k + 1] == log;
    }
  }

  /** The calls of a run, made one after the other on the locked counter: the same answers and the same count. */
  method Serially(s: State, actions: seq<Action>) returns (counter: LockedCount, answers: seq<Outcome>)
    requires Ok(s)
    ensures fresh(counter) && counter.count == Run(s, actions).count && |answers| == |Log(s, actions)|
    ensures forall i :: 0 <= i < |answers| ==> answers[i] == Log(s, actions)[i].outcome
  {
    hide Replay, Ok, Run, Log;
    Linearizes(s, actions);
    var log := Log(s, actions);
    counter := new LockedCount(s.count);
    answers := [];
    var i := 0;
    ReplayNothing(s);
    assert log[..0] == [];
    while i < |log|
      invariant 0 <= i <= |log| && |answers| == i && fresh(counter) && counter.count <= REFCOUNT_MAX
      invariant Replay(s.count, log[..i]) == Some(counter.count)
      invariant forall k :: 0 <= k < i ==> answers[k] == log[k].outcome
    {
      ReplayedCall(s.count, log, i);
      var answer := Counted;
      if log[i].kind == Inc {
        counter.Increment();
      } else {
        answer := counter.DecAndTestZero();
      }
      answers := answers + [answer];
      i := i + 1;
    }
    assert log[..i] == log;
  }

  lemma {:induction false} ReplayNothing(s: State)
    requires Ok(s)
    ensures s.count <= REFCOUNT_MAX && Replay(s.count, []) == Some(s.count)
  {}

  // ---------------------------------------------------------------- each call takes effect once, while it runs

  /** How the calls of thread t answered, in order. */
  function Answers(s: State, actions: seq<Action>, t: nat): seq<Outcome>
  {
    if actions == [] then []
    else
      var before, a := actions[..|actions| - 1], actions[|actions| - 1];
      var l := Run(s, before);
      Answers(s, before, t) +
      if a == Respond(t) && t < |l.threads| && l.threads[t].Finished? && l.threads[t].outcome != Aborted then [l.threads[t].outcome] else []
  }

  /** The answers that entries of thread t give. */
  function Effects(log: seq<Entry>, t: nat): seq<Outcome>
  {
    if log == [] then [] else Effects(log[..|log| - 1], t) + if log[|log| - 1].t == t then [log[|log| - 1].outcome] else []
  }

  /** The effect a thread has had whose answer it has not given yet. */
  function Decided(l: Local): seq<Outcome>
  {
    match l
    case Finished(outcome) => [outcome]
    case Loop(Dec, expected) => if expected == 0 then [Aborted] else []
    case _ => []
  }

  lemma {:induction false} StepDecides(s: State, a: Action, t: nat)
    requires Ok(s) && t < |s.threads|
    ensures var e, l, l' := Effect(s, a), s.threads[t], Step(s, a).threads[t];
            var answered := if a == Respond(t) && l.Finished? && l.outcome != Aborted then [l.outcome] else [];
            Decided(l) + (if e.Some? && e.value.t == t then [e.value.outcome] else []) == answered + Decided(l')
  {
    assert LocalOk(s.count, s.threads[t]);
  }

  /**
    The effects of a thread are its answers, in order, and at most one effect more, that of the call it is
    making now: each call takes effect exactly once, after it is made and before it answers.
   */
  lemma {:induction false} OneEffectPerCall(s: State, actions: seq<Action>, t: nat)
    requires Ok(s) && t < |s.threads| && s.threads[t] == Idle
    ensures |Run(s, actions).threads| == |s.threads|
    ensures Effects(Log(s, actions), t) == Answers(s, actions, t) + Decided(Run(s, actions).threads[t])
    decreases |actions|
  {
    hide Step, Effect, Ok, Decided;
    Linearizes(s, actions);
    if actions == [] {
      assert Decided(Idle) == [] by { DecidedIdle(); }
    } else {
      var before, a := actions[..|actions| - 1], actions[|actions| - 1];
      Linearizes(s, before);
      OneEffectPerCall(s, before, t);
      StepDecides(Run(s, before), a, t);
      var log, l, l' := Log(s, before), Run(s, before).threads[t], Run(s, actions).threads[t];
      var e := Effect(Run(s, before), a);
      var effect := if e.Some? && e.value.t == t then [e.value.outcome] else [];
      var answered := if a == Respond(t) && l.Finished? && l.outcome != Aborted then [l.outcome] else [];
      assert Effects(Log(s, actions), t) == Effects(log, t) + effect by {
        if e.Some? { assert (log + [e.value])[..|log + [e.value]| - 1] == log; }
        else { assert Log(s, actions) == log; }
      }
      Regroup(Answers(s, before, t), Decided(l), effect, answered, Decided(l'));
    }
  }

  lemma {:induction false} Regroup<T>(a: seq<T>, d: seq<T>, effect: seq<T>, answered: seq<T>, d': seq<T>)
    requires d + effect == answered + d'
    ensures (a + d) + effect == (a + answered) + d'
  {
    assert (a + d) + effect == a + (d + effect);
    assert (a + answered) + d' == a + (answered + d');
  }

  lemma {:induction false} DecidedIdle()
    ensures Decided(Idle) == []
  {}

  /** From saturation on, nothing is counted and no release is the last. */
  lemma {:induction false} SaturationAbsorbs(s: State, actions: seq<Action>)
    requires Ok(s) && s.count == REFCOUNT_MAX
    ensures Run(s, actions).count == REFCOUNT_MAX
    ensures forall i :: 0 <= i < |Log(s, actions)| ==> Log(s, actions)[i].outcome == Counted || Log(s, actions)[i].outcome == Released(false)
    decreases |actions|
  {
    hide Step, Effect, Ok;
    if actions != [] {
      var before, a := actions[..|actions| - 1], actions[|actions| - 1];
      Linearizes(s, before);
      SaturationAbsorbs(s, before);
      StepKeepsOk(Run(s, before), a);
      StepRefinesLocked(Run(s, before), a);
    }
  }
}
