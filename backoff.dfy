/**
 * The backoff policies of pkg/retry/backoff.go and the `WithJitter` decorator of
 * pkg/retry/jitter.go. Go's `Backoff` interface has one method, `Next`; every policy
 * is a `BackoffFunc` over a closure, some of which capture a mutable `attempt`
 * counter and a wrapped policy. Here one class stands for all of them: `impl` says
 * which closure an object is, `next` is the wrapped policy of a decorator and
 * `attempt` the captured counter.
 */
module Retry {
  import opened Steps
  import Jitter

  function Pow2(n: nat): nat {
    if n == 0 then 1 else 2 * Pow2(n - 1)
  }

  /** `base << n` on unbounded integers. */
  function Shl(base: Duration, n: nat): (r: Duration) {
    base * Pow2(n)
  }

  /** How `WithMaxRetries` passes on an inner result: a stop becomes `(0, true)`, a wait is kept. */
  function Forward(s: Step): (r: Step) {
    if s.stop then Stop else Step(s.wait, false)
  }

  /** The closure behind the shared `noRetry` policy. */
  const NoRetry: () -> Step := () => Stop

  /** Which closure a `BackoffFunc` wraps. */
  datatype Impl =
    | Func(f: () -> Step)          // a function without state of its own (also Constant and noRetry)
    | Exponential(base: Duration)  // the closure built by Exponential
    | WithMaxRetries(max: int)     // the closure built by WithMaxRetries for max > 0
    | WithJitter                   // the closure built by WithJitter

  class Backoff {
    const impl: Impl
    /** The wrapped policy of a decorator. */
    const next: Backoff?
    /** The `attempt` counter captured by Exponential and WithMaxRetries. */
    var attempt: int

    /** Every result this policy has returned, oldest first. */
    ghost var history: seq<Step>
    /** How many results the wrapped policy had returned when it was wrapped. */
    ghost const innerStart: nat
    ghost var Repr: set<object>

    ghost predicate Valid()
      reads this, Repr
      decreases Repr
    {
      this in Repr &&
      match impl
      case Func(f) =>
        next == null && attempt == 0 &&
        forall i | 0 <= i < |history| :: history[i] == f()
      case Exponential(base) =>
        next == null && attempt == |history| &&
        forall i | 0 <= i < |history| :: history[i] == Step(Shl(base, i), false)
      case WithMaxRetries(max) =>
        next != null && next in Repr && next.Repr <= Repr && this !in next.Repr && next.Valid() &&
        0 < max && 0 <= attempt <= max && attempt == Min(|history|, max) &&
        |next.history| == innerStart + attempt &&
        forall i | 0 <= i < |history| ::
          history[i] == if i < attempt then Forward(next.history[innerStart + i]) else Stop
      case WithJitter =>
        next != null && next in Repr && next.Repr <= Repr && this !in next.Repr && next.Valid() &&
        attempt == 0 && |next.history| == innerStart + |history| &&
        forall i | 0 <= i < |history| :: Jitter.Jittered(next.history[innerStart + i], history[i])
    }

    /** `BackoffFunc(f)`: a policy that returns whatever `f` returns. */
    constructor Func(f: () -> Step)
      ensures Valid() && fresh(Repr) && Repr == {this}
      ensures impl.Func? && impl.f == f && history == []
    {
      impl, next, attempt := Impl.Func(f), null, 0;
      history, innerStart := [], 0;
      new;
      Repr := {this};
    }

    /** `Constant(interval)`: a stateless policy that always waits `interval`. */
    constructor Constant(interval: Duration)
      ensures Valid() && fresh(Repr) && Repr == {this}
      ensures impl.Func? && impl.f() == Step(interval, false) && history == []
    {
      impl, next, attempt := Impl.Func(() => Step(interval, false)), null, 0;
      history, innerStart := [], 0;
      new;
      Repr := {this};
    }

    /** `Exponential(base)`: a policy whose counter starts at zero. */
    constructor Exponential(base: Duration)
      ensures Valid() && fresh(Repr) && Repr == {this}
      ensures impl == Impl.Exponential(base) && attempt == 0 && history == []
    {
      impl, next, attempt := Impl.Exponential(base), null, 0;
      history, innerStart := [], 0;
      new;
      Repr := {this};
    }

    /**
     * `WithMaxRetries(max, inner)`: for max <= 0 the stateless `noRetry` policy, which
     * drops `inner`; otherwise a decorator owning `inner` whose counter starts at zero.
     */
    constructor WithMaxRetries(max: int, inner: Backoff)
      requires inner.Valid()
      ensures Valid() && fresh(Repr - inner.Repr) && history == []
      ensures max <= 0 ==> impl.Func? && impl.f() == Stop && Repr == {this}
      ensures 0 < max ==>
        impl == Impl.WithMaxRetries(max) && next == inner && attempt == 0 &&
        innerStart == |inner.history| && Repr == {this} + inner.Repr
    {
      if max <= 0 {
        impl, next := Impl.Func(NoRetry), null;
      } else {
        impl, next := Impl.WithMaxRetries(max), inner;
      }
      attempt, history, innerStart := 0, [], |inner.history|;
      new;
      Repr := if max <= 0 then {this} else {this} + inner.Repr;
    }

    /** `WithJitter(inner)`: a stateless decorator owning `inner`. */
    constructor WithJitter(inner: Backoff)
      requires inner.Valid()
      ensures Valid() && fresh(Repr - inner.Repr) && history == []
      ensures impl.WithJitter? && next == inner && innerStart == |inner.history|
      ensures Repr == {this} + inner.Repr
    {
      impl, next, attempt := Impl.WithJitter, inner, 0;
      history, innerStart := [], |inner.history|;
      new;
      Repr := {this} + inner.Repr;
    }

    /**
     * `Backoff.Next`: the wait before the next attempt and whether to stop. Every call
     * appends its result to `history`; what else it does depends on the closure.
     */
    method Next() returns (d: Duration, stop: bool)
      requires Valid()
      modifies Repr
      decreases Repr, 1
      ensures Valid() && Repr == old(Repr)
      ensures history == old(history) + [Step(d, stop)]
      ensures impl.Func? ==> Step(d, stop) == impl.f() && attempt == old(attempt)
      ensures impl.Exponential? ==>
        attempt == old(attempt) + 1 && d == Shl(impl.base, old(attempt)) && !stop
      ensures impl.WithMaxRetries? && old(attempt) >= impl.max ==>
        d == 0 && stop && attempt == old(attempt) && unchanged(next.Repr)
      ensures impl.WithMaxRetries? && old(attempt) < impl.max ==>
        attempt == old(attempt) + 1 &&
        |next.history| == |old(next.history)| + 1 && next.history[..|old(next.history)|] == old(next.history) &&
        Step(d, stop) == Forward(next.history[|next.history| - 1])
      ensures impl.WithJitter? ==>
        attempt == old(attempt) &&
        |next.history| == |old(next.history)| + 1 && next.history[..|old(next.history)|] == old(next.history) &&
        Jitter.Jittered(next.history[|next.history| - 1], Step(d, stop))
    {
      match impl
      case Func(_) => d, stop := NextFunc();
      case Exponential(_) => d, stop := NextExponential();
      case WithMaxRetries(_) => d, stop := NextMaxRetries();
      case WithJitter => d, stop := NextJitter();
    }

    /** `BackoffFunc.Next`: call the function; no state of its own. */
    method NextFunc() returns (d: Duration, stop: bool)
      requires Valid() && impl.Func?
      modifies this`history
      decreases Repr, 0
      ensures Valid()
      ensures history == old(history) + [Step(d, stop)]
      ensures Step(d, stop) == impl.f()
    {
      var s := impl.f();
      d, stop := s.wait, s.stop;
      history := history + [s];
    }

    /** The closure of `Exponential`: count the call, then wait `base << (attempt - 1)`. */
    method NextExponential() returns (d: Duration, stop: bool)
      requires Valid() && impl.Exponential?
      modifies this`attempt, this`history
      decreases Repr, 0
      ensures Valid()
      ensures history == old(history) + [Step(d, stop)]
      ensures attempt == old(attempt) + 1 && d == Shl(impl.base, old(attempt)) && !stop
    {
      attempt := attempt + 1;
      d, stop := Shl(impl.base, attempt - 1), false;
      history := history + [Step(d, stop)];
    }

    /**
     * The closure of `WithMaxRetries`: once `attempt` has reached `max`, stop without
     * consulting the wrapped policy; otherwise count the call and pass on its result.
     */
    method NextMaxRetries() returns (d: Duration, stop: bool)
      requires Valid() && impl.WithMaxRetries?
      modifies Repr
      decreases Repr, 0
      ensures Valid() && Repr == old(Repr)
      ensures history == old(history) + [Step(d, stop)]
      ensures old(attempt) >= impl.max ==>
        d == 0 && stop && attempt == old(attempt) && unchanged(next.Repr)
      ensures old(attempt) < impl.max ==>
        attempt == old(attempt) + 1 &&
        |next.history| == |old(next.history)| + 1 && next.history[..|old(next.history)|] == old(next.history) &&
        Step(d, stop) == Forward(next.history[|next.history| - 1])
    {
      if attempt >= impl.max {
        d, stop := 0, true;
      } else {
        attempt := attempt + 1;
        var val, st := next.Next();
        if st {
          d, stop := 0, true;
        } else {
          d, stop := val, false;
        }
      }
      history := history + [Step(d, stop)];
    }

    /**
     * The closure of `WithJitter`: call the wrapped policy once; pass a stop on as
     * `(0, true)`, and add `rand.Intn(1000)` milliseconds to a wait.
     */
    method NextJitter() returns (d: Duration, stop: bool)
      requires Valid() && impl.WithJitter?
      modifies Repr
      decreases Repr, 0
      ensures Valid() && Repr == old(Repr)
      ensures history == old(history) + [Step(d, stop)]
      ensures attempt == old(attempt)
      ensures |next.history| == |old(next.history)| + 1 && next.history[..|old(next.history)|] == old(next.history)
      ensures Jitter.Jittered(next.history[|next.history| - 1], Step(d, stop))
    {
      var v, st := next.Next();
      if st {
        d, stop := 0, true;
      } else {
        var k := Jitter.Intn(Jitter.Range);
        d, stop := v + k * Jitter.Millisecond, false;
        assert Step(d, stop) == Jitter.Apply(Step(v, st), k);
      }
      history := history + [Step(d, stop)];
    }
  }
}
