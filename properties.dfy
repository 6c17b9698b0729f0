/** What holds over any sequence of `Next` calls on a policy, stated on its `history`. */
module Properties {
  import opened Steps
  import opened Retry
  import Jitter

  /** A policy chain that can never return a stop: no `WithMaxRetries` and no stopping function in it. */
  ghost predicate NeverStops(b: Backoff)
    reads b, b.Repr
    requires b.Valid()
    decreases b.Repr
  {
    match b.impl
    case Func(f) => !f().stop
    case Exponential(_) => true
    case WithMaxRetries(_) => false
    case WithJitter => NeverStops(b.next)
  }

  /** Such a chain has indeed never stopped, however often it was called. */
  lemma {:induction false} NeverStopsHistory(b: Backoff)
    requires b.Valid() && NeverStops(b)
    ensures forall i | 0 <= i < |b.history| :: !b.history[i].stop
    decreases b.Repr
  {
    if b.impl.WithJitter? {
      NeverStopsHistory(b.next);
      forall i | 0 <= i < |b.history| ensures !b.history[i].stop {
        assert Jitter.Jittered(b.next.history[b.innerStart + i], b.history[i]);
      }
    }
  }

  /**
   * `WithMaxRetries(max, ·)` keeps `0 <= attempt <= max`, consults the wrapped policy
   * once per counted call and never more than `max` times, allows at most `max`
   * retries, and stops on every call from the (max+1)-th on.
   */
  lemma MaxRetriesBounds(b: Backoff)
    requires b.Valid() && b.impl.WithMaxRetries?
    ensures 0 <= b.attempt <= b.impl.max
    ensures |b.next.history| - b.innerStart == b.attempt
    ensures NonStops(b.history) <= b.attempt
    ensures forall i | b.impl.max <= i < |b.history| :: b.history[i] == Stop
  {
    var h, n := b.history, b.attempt;
    assert h == h[..n] + h[n..];
    NonStopsAllStop(h[n..]);
    NonStopsAppend(h[..n], h[n..]);
  }

  /**
   * Over a wrapped policy that never stops, `WithMaxRetries(max, ·)` returns exactly
   * `max` waits, each the inner wait unchanged, and then stops for good: the
   * (i+1)-th result is a stop exactly when i >= max.
   */
  lemma MaxRetriesOverNeverStopping(b: Backoff)
    requires b.Valid() && b.impl.WithMaxRetries? && NeverStops(b.next)
    ensures forall i | 0 <= i < |b.history| :: b.history[i].stop <==> i >= b.impl.max
    ensures forall i | 0 <= i < |b.history| && i < b.impl.max ::
      b.history[i] == b.next.history[b.innerStart + i]
    ensures NonStops(b.history) == Min(|b.history|, b.impl.max)
  {
    NeverStopsHistory(b.next);
    var h, n := b.history, b.attempt;
    assert h == h[..n] + h[n..];
    NonStopsAllStop(h[n..]);
    NonStopsNoStop(h[..n]);
    NonStopsAppend(h[..n], h[n..]);
  }

  /**
   * `Exponential(base)`: the first result waits `base`, each later one twice the
   * one before, and none stops.
   */
  lemma ExponentialDoubles(b: Backoff)
    requires b.Valid() && b.impl.Exponential?
    ensures b.attempt == |b.history|
    ensures |b.history| > 0 ==> b.history[0] == Step(b.impl.base, false)
    ensures forall i | 0 < i < |b.history| ::
      !b.history[i].stop && b.history[i].wait == 2 * b.history[i - 1].wait
  {
  }

  /** A `BackoffFunc` over a fixed function (`Constant`, `noRetry`): all results are the same. */
  lemma FuncRepeats(b: Backoff)
    requires b.Valid() && b.impl.Func?
    ensures forall i, j | 0 <= i < |b.history| && 0 <= j < |b.history| :: b.history[i] == b.history[j]
  {
  }

  /**
   * `WithJitter`: its results correspond one to one to the wrapped policy's; a stop
   * is passed on as `(0, true)`, and a wait `v` becomes one in [v, v + 1000ms) that
   * differs from `v` by whole milliseconds.
   */
  lemma JitterBounds(b: Backoff)
    requires b.Valid() && b.impl.WithJitter?
    ensures |b.next.history| - b.innerStart == |b.history|
    ensures forall i | 0 <= i < |b.history| ::
      var inner := b.next.history[b.innerStart + i];
      b.history[i].stop == inner.stop &&
      (inner.stop ==> b.history[i] == Stop) &&
      (!inner.stop ==>
        inner.wait <= b.history[i].wait < inner.wait + 1000 * Jitter.Millisecond &&
        (b.history[i].wait - inner.wait) % Jitter.Millisecond == 0)
  {
  }

  /** `WithJitter(Constant(d))`: every result is a wait in [d, d + 1000ms). */
  lemma JitterOverConstant(b: Backoff, d: Duration)
    requires b.Valid() && b.impl.WithJitter?
    requires b.next.impl.Func? && b.next.impl.f() == Step(d, false)
    ensures forall i | 0 <= i < |b.history| ::
      !b.history[i].stop && d <= b.history[i].wait < d + 1000 * Jitter.Millisecond
  {
  }
}
