/** The jitter of `WithJitter` (pkg/retry/jitter.go): a whole number of milliseconds in [0, 1000). */
module Jitter {
  import opened Steps

  /** `time.Millisecond`, in nanoseconds. */
  const Millisecond: Duration := 1_000_000

  /** The bound passed to `rand.Intn`: the jitter is below this many milliseconds. */
  const Range: int := 1000

  /**
   * `math/rand.Intn`: some integer in [0, n). Nothing else is known about the draw;
   * Go panics when n <= 0, so callers must pass a positive bound.
   */
  method Intn(n: int) returns (k: int)
    requires n > 0
    ensures 0 <= k < n
  {
    k :| 0 <= k < n;
  }

  /**
   * `out` is a possible jittered result for the inner result `inner`: a stop stays
   * the stop `(0, true)`; a wait grows by a whole number of milliseconds below one second.
   */
  ghost predicate Jittered(inner: Step, out: Step) {
    if inner.stop then out == Stop
    else
      !out.stop &&
      inner.wait <= out.wait < inner.wait + Range * Millisecond &&
      (out.wait - inner.wait) % Millisecond == 0
  }

  /** What `WithJitter` returns for the inner result `inner` when `rand.Intn(1000)` draws `k`. */
  function Apply(inner: Step, k: int): (r: Step)
    requires 0 <= k < Range
    ensures Jittered(inner, r)
    ensures !inner.stop ==> r.wait - inner.wait == k * Millisecond
  {
    if inner.stop then Stop else Step(inner.wait + k * Millisecond, false)
  }

  /** Conversely, every result `Jittered` admits comes from some draw. */
  lemma JitteredHasDraw(inner: Step, out: Step)
    requires Jittered(inner, out)
    ensures exists k :: 0 <= k < Range && Apply(inner, k) == out
  {
    if inner.stop {
      assert Apply(inner, 0) == out;
    } else {
      var k := (out.wait - inner.wait) / Millisecond;
      assert k * Millisecond == out.wait - inner.wait;
      assert Apply(inner, k) == out;
    }
  }
}
