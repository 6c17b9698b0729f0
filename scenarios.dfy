/**
 * Clients that drive composed policies through whole call sequences, as the tests in
 * pkg/retry/retry_test.go do, and through both orders of capping and jittering. A retry loop calls
 * `Next` after each failed attempt and gives up at the first stop, so a sequence
 * whose first stop is its (n+1)-th result allows n + 1 attempts in all.
 */
module Scenarios {
  import opened Steps
  import opened Retry
  import Jitter
  import Properties

  /** Call `b.Next()` `n` times and collect the results. */
  method Drive(b: Backoff, n: nat) returns (results: seq<Step>)
    requires b.Valid()
    modifies b.Repr
    ensures b.Valid() && b.Repr == old(b.Repr)
    ensures |results| == n && b.history == old(b.history) + results
  {
    results := [];
    var i := 0;
    while i < n
      invariant 0 <= i <= n && |results| == i
      invariant b.Valid() && b.Repr == old(b.Repr)
      invariant b.history == old(b.history) + results
    {
      var d, stop := b.Next();
      results := results + [Step(d, stop)];
      i := i + 1;
    }
  }

  /**
   * `WithMaxRetries(3, ·)` over a function that always waits 1ns, called `n >= 4` times:
   * three 1ns waits, then a stop on every later call, so a retry loop over an always
   * failing operation makes four attempts.
   */
  method ExitOnMaxAttempt(n: nat) returns (results: seq<Step>)
    requires n >= 4
    ensures |results| == n
    ensures results[..3] == [Step(1, false), Step(1, false), Step(1, false)]
    ensures forall i | 3 <= i < n :: results[i] == Stop
  {
    var inner := new Backoff.Func(() => Step(1, false));
    var b := new Backoff.WithMaxRetries(3, inner);
    results := Drive(b, n);
    Properties.MaxRetriesBounds(b);
    assert results == b.history && b.next == inner && b.innerStart == 0;
    assert inner.Valid() && inner.impl.f() == Step(1, false);
    forall i | 0 <= i < 3 ensures results[i] == Step(1, false) {
      assert inner.history[i] == inner.impl.f();
    }
  }

  /** `WithMaxRetries(max, ·)` with max <= 0: every one of `n` calls stops, whatever it wraps. */
  method NoRetries(max: int, inner: Backoff, n: nat) returns (results: seq<Step>)
    requires max <= 0 && inner.Valid()
    ensures |results| == n
    ensures forall i | 0 <= i < n :: results[i] == Stop
  {
    var b := new Backoff.WithMaxRetries(max, inner);
    results := Drive(b, n);
    assert results == b.history;
  }

  /**
   * Capping a jittered constant wait `d` at three retries, in either order, gives
   * three waits in [d, d + 1000ms) and then a stop: four attempts in all.
   */
  ghost predicate ThreeJitteredWaitsThenStop(results: seq<Step>, d: Duration) {
    |results| == 4 && NonStops(results) == 3 && results[3] == Stop &&
    forall i | 0 <= i < 3 ::
      !results[i].stop && d <= results[i].wait < d + 1000 * Jitter.Millisecond
  }

  /** `WithMaxRetries(3, WithJitter(Constant(d)))`. */
  method CapOverJitter(d: Duration) returns (results: seq<Step>)
    ensures ThreeJitteredWaitsThenStop(results, d)
  {
    var c := new Backoff.Constant(d);
    var j := new Backoff.WithJitter(c);
    var m := new Backoff.WithMaxRetries(3, j);
    results := Drive(m, 4);
    assert results == m.history;
    CapOverJitterHistory(m, d);
  }

  lemma CapOverJitterHistory(m: Backoff, d: Duration)
    requires m.Valid() && m.impl == Impl.WithMaxRetries(3) && |m.history| == 4
    requires m.next.impl.WithJitter? && m.next.next != null && m.next.next.impl.Func? && m.next.next.impl.f() == Step(d, false)
    ensures ThreeJitteredWaitsThenStop(m.history, d)
  {
    var j := m.next;
    Properties.MaxRetriesOverNeverStopping(m);
    Properties.JitterOverConstant(j, d);
    forall i | 0 <= i < 3
      ensures !m.history[i].stop && d <= m.history[i].wait < d + 1000 * Jitter.Millisecond
    {
      assert m.history[i] == j.history[m.innerStart + i];
    }
  }

  /** `WithJitter(WithMaxRetries(3, Constant(d)))`: the jitter also lands on the last wait. */
  method JitterOverCap(d: Duration) returns (results: seq<Step>)
    ensures ThreeJitteredWaitsThenStop(results, d)
  {
    var c := new Backoff.Constant(d);
    var m := new Backoff.WithMaxRetries(3, c);
    var j := new Backoff.WithJitter(m);
    results := Drive(j, 4);
    assert results == j.history;
    JitterOverCapHistory(j, d);
  }

  lemma JitterOverCapHistory(j: Backoff, d: Duration)
    requires j.Valid() && j.impl.WithJitter? && j.innerStart == 0 && |j.history| == 4
    requires j.next.impl == Impl.WithMaxRetries(3) && j.next.next != null && j.next.next.impl.Func? && j.next.next.impl.f() == Step(d, false)
    ensures ThreeJitteredWaitsThenStop(j.history, d)
  {
    var m, c := j.next, j.next.next;
    assert m.Valid() && c.Valid();
    Properties.MaxRetriesOverNeverStopping(m);
    Properties.JitterBounds(j);
    forall i | 0 <= i < 4
      ensures i < 3 ==> !j.history[i].stop && d <= j.history[i].wait < d + 1000 * Jitter.Millisecond
      ensures i == 3 ==> j.history[i] == Stop
    {
      assert i < 3 ==> m.history[i] == c.history[m.innerStart + i] == c.impl.f();
    }
    NonStopsAt(j.history);
  }

  lemma NonStopsAt(h: seq<Step>)
    requires |h| == 4 && !h[0].stop && !h[1].stop && !h[2].stop && h[3].stop
    ensures NonStops(h) == 3
  {
    assert h == h[..3] + h[3..];
    NonStopsNoStop(h[..3]);
    NonStopsAllStop(h[3..]);
    NonStopsAppend(h[..3], h[3..]);
  }
}
