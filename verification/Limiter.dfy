/** `Limiter` (util/env_posix.cpp): a lock-free resource counter, as a step system over the atomic operations of any
    number of threads.

    `Acquire` is one `fetch_sub` and, when it came too late, a second atomic step that puts the unit back; `Release`
    is one `fetch_add`.  Other threads may step between the two halves of a failing `Acquire`. */
module Limiter {

  /** A thread holds some resources and may be between the two atomic operations of a failing `Acquire`. */
  datatype Thread = Thread(held: nat, failing: bool)

  datatype State = State(allowed: int, threads: seq<Thread>)

  datatype Step =
    | AcquireSub(t: nat)      // fetch_sub(1); the acquire succeeded if the old value was positive
    | AcquireUndo(t: nat)     // fetch_add(1) of a failing Acquire
    | Release(t: nat)         // fetch_add(1)

  ghost predicate Initial(s: State, max: nat) {
    s.allowed == max && forall t :: 0 <= t < |s.threads| ==> s.threads[t] == Thread(0, false)
  }

  /** A thread releases only what it acquired, and finishes one call before starting the next. */
  ghost predicate Enabled(s: State, a: Step) {
    a.t < |s.threads| &&
    match a
    case AcquireSub(t) => !s.threads[t].failing
    case AcquireUndo(t) => s.threads[t].failing
    case Release(t) => !s.threads[t].failing && s.threads[t].held > 0
  }

  function Apply(s: State, a: Step): State
    requires Enabled(s, a)
  {
    var th := s.threads[a.t];
    match a
    case AcquireSub(t) =>
      if s.allowed > 0 then State(s.allowed - 1, s.threads[t := th.(held := th.held + 1)])
      else State(s.allowed - 1, s.threads[t := th.(failing := true)])
    case AcquireUndo(t) => State(s.allowed + 1, s.threads[t := th.(failing := false)])
    case Release(t) => State(s.allowed + 1, s.threads[t := th.(held := th.held - 1)])
  }

  /** The check in the code after each `fetch_add`: the value before the increment was below the maximum. */
  ghost predicate AssertionHolds(s: State, a: Step, max: nat) {
    !a.AcquireSub? ==> s.allowed < max
  }

  // ----- Totals over the threads

  function Held(threads: seq<Thread>): nat {
    if threads == [] then 0 else threads[0].held + Held(threads[1..])
  }

  function Failing(threads: seq<Thread>): nat {
    if threads == [] then 0 else (if threads[0].failing then 1 else 0) + Failing(threads[1..])
  }

  lemma {:induction false} TotalsUpdate(threads: seq<Thread>, t: nat, th: Thread)
    requires t < |threads|
    ensures Held(threads[t := th]) == Held(threads) - threads[t].held + th.held
    ensures Failing(threads[t := th])
         == Failing(threads) - (if threads[t].failing then 1 else 0) + (if th.failing then 1 else 0)
    ensures threads[t].held <= Held(threads) && (threads[t].failing ==> Failing(threads) >= 1)
  {
    if t == 0 {
      assert threads[t := th][1..] == threads[1..];
    } else {
      assert threads[t := th][1..] == threads[1..][t - 1 := th];
      TotalsUpdate(threads[1..], t - 1, th);
    }
  }

  lemma {:induction false} TotalsZero(threads: seq<Thread>)
    requires forall t :: 0 <= t < |threads| ==> threads[t] == Thread(0, false)
    ensures Held(threads) == 0 && Failing(threads) == 0
  {
    if threads != [] {
      assert forall t :: 0 <= t < |threads[1..]| ==> threads[1..][t] == threads[t + 1];
      TotalsZero(threads[1..]);
    }
  }

  // ----- Safety over every run

  /** Every unit is available, held, or about to be put back.  Only a counter that someone overdrew is negative. */
  ghost predicate Conserved(s: State, max: nat) {
    s.allowed + Held(s.threads) + Failing(s.threads) == max && Held(s.threads) <= max
  }

  ghost predicate Run(states: seq<State>, steps: seq<Step>, max: nat) {
    |states| == |steps| + 1 && Initial(states[0], max) &&
    forall i :: 0 <= i < |steps| ==> Enabled(states[i], steps[i]) && states[i + 1] == Apply(states[i], steps[i])
  }

  lemma StepConserves(s: State, a: Step, max: nat)
    requires Conserved(s, max) && Enabled(s, a)
    ensures Conserved(Apply(s, a), max) && AssertionHolds(s, a, max)
  {
    TotalsUpdate(s.threads, a.t, Apply(s, a).threads[a.t]);
  }

  /** In every interleaving, at every point: units are conserved, no more than `max` are held, and neither internal
      assertion can fire on the step taken next. */
  lemma {:induction false} RunIsSafe(states: seq<State>, steps: seq<Step>, max: nat, i: nat)
    requires Run(states, steps, max) && i < |states|
    ensures Conserved(states[i], max)
    ensures i < |steps| ==> AssertionHolds(states[i], steps[i], max)
    decreases i
  {
    if i == 0 {
      TotalsZero(states[0].threads);
    } else {
      RunIsSafe(states, steps, max, i - 1);
      StepConserves(states[i - 1], steps[i - 1], max);
    }
    if i < |steps| {
      StepConserves(states[i], steps[i], max);
    }
  }

  /** What an `Acquire` returns, in terms of who holds or has overdrawn units at its `fetch_sub`: it succeeds exactly
      when holders and acquires still to be undone together leave room. */
  lemma AcquireSucceedsIff(states: seq<State>, steps: seq<Step>, max: nat, i: nat)
    requires Run(states, steps, max) && i < |steps| && steps[i].AcquireSub?
    ensures states[i + 1].threads[steps[i].t].held == states[i].threads[steps[i].t].held + 1
       <==> Held(states[i].threads) + Failing(states[i].threads) < max
  {
    RunIsSafe(states, steps, max, i);
  }

  /** What the second half of a failing `Acquire`, and a `Release`, give back: one unit to the counter; the failing call is
      over, or the thread holds one unit less; nothing else changes. */
  lemma UnitsGoBack(s: State, a: Step)
    requires Enabled(s, a) && !a.AcquireSub?
    ensures Apply(s, a).allowed == s.allowed + 1 && |Apply(s, a).threads| == |s.threads|
    ensures var before, after := s.threads[a.t], Apply(s, a).threads[a.t];
            !after.failing && after.held == before.held - (if a.Release? then 1 else 0)
    ensures forall t :: 0 <= t < |s.threads| && t != a.t ==> Apply(s, a).threads[t] == s.threads[t]
  {
  }

  /** A thread can always step: acquire between calls, and finish a failing call; it can release what it holds. */
  lemma ThreadsCanStep(s: State, t: nat)
    requires t < |s.threads|
    ensures if s.threads[t].failing then Enabled(s, AcquireUndo(t)) else Enabled(s, AcquireSub(t))
    ensures !s.threads[t].failing && s.threads[t].held > 0 ==> Enabled(s, Release(t))
  {
  }

  /** The units thread t has acquired, less those it released, by step i. */
  ghost function Balance(states: seq<State>, steps: seq<Step>, i: nat, t: nat): int
    requires i <= |steps| < |states|
  {
    if i == 0 then 0
    else
      Balance(states, steps, i - 1, t) +
      if steps[i - 1] == AcquireSub(t) && states[i - 1].allowed > 0 then 1 else if steps[i - 1] == Release(t) then -1 else 0
  }

  /** The additions to the counter, less the subtractions, by step i. */
  ghost function Additions(steps: seq<Step>, i: nat): int
    requires i <= |steps|
  {
    if i == 0 then 0 else Additions(steps, i - 1) + if steps[i - 1].AcquireSub? then -1 else 1
  }

  /** Throughout a run each thread holds exactly what it acquired and has not released, and the counter has every addition
      and subtraction made. */
  lemma {:induction false} CountsAreExact(states: seq<State>, steps: seq<Step>, max: nat, i: nat, t: nat)
    requires Run(states, steps, max) && i < |states| && t < |states[0].threads|
    ensures |states[i].threads| == |states[0].threads| && states[i].threads[t].held == Balance(states, steps, i, t)
    ensures states[i].allowed == max + Additions(steps, i)
    decreases i
  {
    if i > 0 {
      CountsAreExact(states, steps, max, i - 1, t);
      var s, a := states[i - 1], steps[i - 1];
      assert Enabled(s, a) && states[i - 1 + 1] == Apply(s, a);
    }
  }

  /** The holders alone do not decide it: with one unit in all, and nobody holding it, an `Acquire` can still fail
      because an earlier failed one has not put its unit back yet. */
  lemma AcquireMayFailWhileFree()
    ensures exists states: seq<State>, steps: seq<Step> ::
      Run(states, steps, 1) && |steps| == 4 && Held(states[3].threads) == 0 && steps[3] == AcquireSub(2) &&
      |states[4].threads| == 3 && states[4].threads[2] == Thread(0, true)
  {
    var none := Thread(0, false);
    var s0 := State(1, [none, none, none]);
    var steps := [AcquireSub(0), AcquireSub(1), Release(0), AcquireSub(2)];
    var s1 := Apply(s0, steps[0]);
    var s2 := Apply(s1, steps[1]);
    var s3 := Apply(s2, steps[2]);
    var s4 := Apply(s3, steps[3]);
    assert s3.threads == [none, Thread(0, true), none];
    assert Held(s3.threads) == 0 by {
      assert s3.threads[1..] == [Thread(0, true), none] && s3.threads[1..][1..] == [none];
      assert Held([none]) == 0 && Held([Thread(0, true), none]) == Held([none]);
    }
    var states := [s0, s1, s2, s3, s4];
    assert Run(states, steps, 1);
  }
}
