/**
  Threads that hold references to one object and keep to the rules: who takes a further reference has
  one, and who releases a reference had it. References may be passed between threads.
 */
module RefcountHolders {
  import opened Words
  import opened Refcount

  /** `holds` counts each thread's references; `lasts` the releases that took effect as the last one. */
  datatype Program = Program(s: State, holds: seq<nat>, lasts: nat)

  datatype Move = Do(a: Action) | Give(t: nat, u: nat)

  /** A step of a thread that keeps to the rules; a move against the rules does not happen. */
  function Next(p: Program, m: Move): Program
    requires |p.holds| == |p.s.threads|
  {
    match m
    case Give(t, u) =>
      if t >= |p.holds| || u >= |p.holds| || t == u || p.holds[t] == 0 || p.s.threads[t] != Idle then p
      else p.(holds := p.holds[t := p.holds[t] - 1][u := p.holds[u] + 1])
    case Do(a) =>
      if a.t >= |p.holds| || (a.Invoke? && p.holds[a.t] == 0) then p
      else
        var l := p.s.threads[a.t];
        var last := if Effect(p.s, a).Some? && Effect(p.s, a).value.outcome == Released(true) then 1 else 0;
        var hold :=
          if a.Invoke? && l == Idle && a.kind == Dec then p.holds[a.t] - 1
          else if a.Respond? && l == Finished(Counted) then p.holds[a.t] + 1
          else p.holds[a.t];
        Program(Step(p.s, a), p.holds[a.t := hold], p.lasts + last)
  }

  /** The references a thread accounts for, counting those it is about to release or has just taken. */
  function Weight(l: Local, hold: nat): nat
  {
    hold + if l == Called(Dec) || (l.Loop? && l.kind == Dec) || l == Finished(Counted) then 1 else 0
  }

  function Total(threads: seq<Local>, holds: seq<nat>): nat
    requires |threads| == |holds|
  {
    if threads == [] then 0
    else
      var n := |threads| - 1;
      Total(threads[..n], holds[..n]) + Weight(threads[n], holds[n])
  }

  lemma {:induction false} TotalUpdate(threads: seq<Local>, holds: seq<nat>, t: nat, l: Local, hold: nat)
    requires t < |threads| == |holds|
    ensures Weight(threads[t], holds[t]) <= Total(threads, holds)
    ensures Total(threads[t := l], holds[t := hold]) == Total(threads, holds) - Weight(threads[t], holds[t]) + Weight(l, hold)
    decreases |threads|
  {
    hide Weight;
    var n := |threads| - 1;
    if t < n {
      TotalUpdate(threads[..n], holds[..n], t, l, hold);
      assert threads[t := l][..n] == threads[..n][t := l] && holds[t := hold][..n] == holds[..n][t := hold];
    } else {
      assert threads[t := l][..n] == threads[..n] && holds[t := hold][..n] == holds[..n];
    }
  }

  /** A thread that holds nothing, is not about to release anything, and is not about to be given anything. */
  predicate AllGone(l: Local, hold: nat)
  {
    hold == 0 && match l
                 case Idle => true
                 case Called(kind) => kind == Inc
                 case Loop(kind, _) => kind == Inc
                 case Finished(outcome) => outcome != Counted
  }

  lemma {:induction false} TotalZero(threads: seq<Local>, holds: seq<nat>)
    requires |threads| == |holds|
    ensures Total(threads, holds) == 0 <==> forall t :: 0 <= t < |holds| ==> AllGone(threads[t], holds[t])
    decreases |threads|
  {
    if threads != [] {
      var n := |threads| - 1;
      TotalZero(threads[..n], holds[..n]);
      if Total(threads, holds) == 0 {
        forall t | 0 <= t < |holds| ensures AllGone(threads[t], holds[t]) {
          if t < n { assert AllGone(threads[..n][t], holds[..n][t]); }
        }
      }
    }
  }

  /** A holder may take and release references, nobody else may, and a call once made always goes on. */
  lemma {:induction false} HoldersMay(p: Program, a: Action)
    requires |p.holds| == |p.s.threads| && a.t < |p.holds|
    ensures Next(p, Do(a)).s == if a.Invoke? && p.holds[a.t] == 0 then p.s else Step(p.s, a)
    ensures a.Invoke? && a.kind == Dec && p.s.threads[a.t] == Idle && p.holds[a.t] > 0 ==> Next(p, Do(a)).holds[a.t] == p.holds[a.t] - 1
    ensures a.Respond? && p.s.threads[a.t] == Finished(Counted) ==> Next(p, Do(a)).holds[a.t] == p.holds[a.t] + 1
  {}

  /** A reference passes from one thread to another, and nothing else changes. */
  lemma {:induction false} HoldersMayGive(p: Program, t: nat, u: nat)
    requires |p.holds| == |p.s.threads| && t < |p.holds| && u < |p.holds| && t != u && p.holds[t] > 0 && p.s.threads[t] == Idle
    ensures var q := Next(p, Give(t, u));
            && q.s == p.s && q.lasts == p.lasts && |q.holds| == |p.holds| && q.holds[t] == p.holds[t] - 1 && q.holds[u] == p.holds[u] + 1
            && forall v :: 0 <= v < |p.holds| && v != t && v != u ==> q.holds[v] == p.holds[v]
  {}

  /** A call that takes a reference is made by a holder, and no call is about to abort. */
  predicate ThreadOk(l: Local, hold: nat)
  {
    && (l == Called(Inc) || (l.Loop? && l.kind == Inc) ==> hold > 0)
    && l != Finished(Aborted) && l != Loop(Dec, 0)
  }

  /** Unless it is saturated, the counter is the number of references, and the last release is the one to zero. */
  predicate Sound(p: Program)
  {
    && Ok(p.s) && |p.holds| == |p.s.threads|
    && (forall t :: 0 <= t < |p.holds| ==> ThreadOk(p.s.threads[t], p.holds[t]))
    && (if p.s.count == REFCOUNT_MAX then p.lasts == 0
        else p.s.count == Total(p.s.threads, p.holds) && p.lasts == if p.s.count == 0 then 1 else 0)
  }

  lemma {:induction false} GiveKeepsSound(p: Program, m: Move)
    requires Sound(p) && m.Give?
    ensures Sound(Next(p, m))
  {
    hide Ok, Total;
    if Next(p, m) != p {
      var t, u := m.t, m.u;
      var holds := p.holds[t := p.holds[t] - 1];
      TotalUpdate(p.s.threads, p.holds, t, Idle, p.holds[t] - 1);
      TotalUpdate(p.s.threads, holds, u, p.s.threads[u], p.holds[u] + 1);
      assert p.s.threads[t := Idle] == p.s.threads && p.s.threads[u := p.s.threads[u]] == p.s.threads;
    }
  }

  lemma {:induction false} DoKeepsSound(p: Program, m: Move)
    requires Sound(p) && m.Do?
    ensures Sound(Next(p, m))
  {
    hide Ok, Total;
    var q, t := Next(p, m), m.a.t;
    if q != p {
      StepKeepsOk(p.s, m.a);
      LocalRead(p.s, t);
      TotalUpdate(p.s.threads, p.holds, t, q.s.threads[t], q.holds[t]);
      assert q.s.threads == p.s.threads[t := q.s.threads[t]] && q.holds == p.holds[t := q.holds[t]];
      assert ThreadOk(p.s.threads[t], p.holds[t]);
    }
  }

  lemma {:induction false} LocalRead(s: State, t: nat)
    requires Ok(s) && t < |s.threads|
    ensures LocalOk(s.count, s.threads[t]) && s.count <= REFCOUNT_MAX
  {}

  function RunMoves(p: Program, moves: seq<Move>): (q: Program)
    requires |p.holds| == |p.s.threads|
    ensures |q.holds| == |q.s.threads| == |p.holds|
  {
    if moves == [] then p else Next(RunMoves(p, moves[..|moves| - 1]), moves[|moves| - 1])
  }

  /** One object, some threads holding references to it, and nothing going on yet. */
  predicate Start(p: Program)
  {
    && |p.holds| == |p.s.threads| && p.lasts == 0 && 0 < p.s.count < REFCOUNT_MAX
    && (forall t :: 0 <= t < |p.s.threads| ==> p.s.threads[t] == Idle)
    && p.s.count == Total(p.s.threads, p.holds)
  }

  /**
    However the threads interleave: no call aborts; until saturation the counter is the number of
    references; and a release is told that it was the last one exactly once if all references have been
    released, and never otherwise.
   */
  lemma {:induction false} LastReleaseOnce(p: Program, moves: seq<Move>)
    requires Start(p)
    ensures Sound(RunMoves(p, moves))
    ensures var q := RunMoves(p, moves);
            && (forall t :: 0 <= t < |q.s.threads| ==> q.s.threads[t] != Finished(Aborted))
            && q.lasts <= 1
            && (q.s.count != 0xffff_ffff ==> (q.lasts == 1 <==> forall t :: 0 <= t < |q.holds| ==> AllGone(q.s.threads[t], q.holds[t])))
    decreases |moves|
  {
    hide Total, Next, Ok;
    StartOk(p);
    if moves != [] {
      var before, m := moves[..|moves| - 1], moves[|moves| - 1];
      LastReleaseOnce(p, before);
      if m.Do? { DoKeepsSound(RunMoves(p, before), m); } else { GiveKeepsSound(RunMoves(p, before), m); }
    }
    var q := RunMoves(p, moves);
    TotalZero(q.s.threads, q.holds);
    forall t | 0 <= t < |q.s.threads| ensures q.s.threads[t] != Finished(Aborted) { assert ThreadOk(q.s.threads[t], q.holds[t]); }
  }

  lemma {:induction false} RunOn(p: Program, a: seq<Move>, b: seq<Move>)
    requires |p.holds| == |p.s.threads|
    ensures RunMoves(p, a + b) == RunMoves(RunMoves(p, a), b)
    decreases |b|
  {
    hide Next;
    if b == [] {
      assert a + b == a;
    } else {
      RunOn(p, a, b[..|b| - 1]);
      assert (a + b)[..|a + b| - 1] == a + b[..|b| - 1];
    }
  }

  /** A thread releases one reference without being disturbed. */
  lemma {:induction false} ReleaseOne(p: Program, t: nat)
    requires Start(p) && t < |p.holds| && p.holds[t] > 0
    ensures RunMoves(p, [Do(Invoke(t, Dec)), Do(Load(t)), Do(Turn(t, false)), Do(Respond(t))])
            == Program(State(p.s.count - 1, p.s.threads), p.holds[t := p.holds[t] - 1], if p.s.count == 1 then 1 else 0)
  {
    hide Total;
    var a, b, c, d := Do(Invoke(t, Dec)), Do(Load(t)), Do(Turn(t, false)), Do(Respond(t));
    var n, hold := p.s.count, p.holds[t := p.holds[t] - 1];
    assert [a, b, c, d][..3] == [a, b, c] && [a, b, c][..2] == [a, b] && [a, b][..1] == [a] && [a][..0] == [];
    assert RunMoves(p, []) == p;
    assert RunMoves(p, [a]) == Next(p, a) == Program(State(n, p.s.threads[t := Called(Dec)]), hold, 0);
    assert RunMoves(p, [a, b]) == Program(State(n, p.s.threads[t := Loop(Dec, n)]), hold, 0);
    assert RunMoves(p, [a, b, c]) == Program(State(n - 1, p.s.threads[t := Finished(Released(n == 1))]), hold, if n == 1 then 1 else 0);
    assert p.s.threads[t := Idle] == p.s.threads;
  }

  /** The object can always be brought to its end: there is a run in which everybody releases everything. */
  lemma {:induction false} CanBeReleased(p: Program) returns (moves: seq<Move>)
    requires Start(p)
    ensures var q := RunMoves(p, moves); q.lasts == 1 && q.s.count == 0 && forall t :: 0 <= t < |q.holds| ==> q.holds[t] == 0
    decreases p.s.count
  {
    hide Next, Total;
    TotalZero(p.s.threads, p.holds);
    var t :| 0 <= t < |p.holds| && !AllGone(p.s.threads[t], p.holds[t]);
    moves := [Do(Invoke(t, Dec)), Do(Load(t)), Do(Turn(t, false)), Do(Respond(t))];
    ReleaseOne(p, t);
    var q := RunMoves(p, moves);
    TotalUpdate(p.s.threads, p.holds, t, Idle, p.holds[t] - 1);
    assert p.s.threads[t := Idle] == p.s.threads;
    if p.s.count == 1 {
      TotalZero(q.s.threads, q.holds);
      forall u | 0 <= u < |q.holds| ensures q.holds[u] == 0 { assert AllGone(q.s.threads[u], q.holds[u]); }
    } else {
      var more := CanBeReleased(q);
      RunOn(p, moves, more);
      moves := moves + more;
    }
  }

  lemma {:induction false} StartOk(p: Program)
    requires Start(p)
    ensures Ok(p.s)
  {}
}
