/** Results of `Backoff.Next` and counting over sequences of them. */
module Steps {

  /** A wait in nanoseconds (Go's `time.Duration`, an int64; unbounded here). */
  type Duration = int

  /** One result of `Next`: the wait before the next attempt, and whether to stop. */
  datatype Step = Step(wait: Duration, stop: bool)

  /** The `(0, true)` result that every policy in the package returns when it stops. */
  const Stop: Step := Step(0, true)

  function Min(a: int, b: int): (r: int) { if a <= b then a else b }

  /** How many results of `h` ask for another attempt (the retries they allow). */
  function NonStops(h: seq<Step>): (r: nat)
    ensures r <= |h|
  {
    if h == [] then 0 else NonStops(h[..|h| - 1]) + (if h[|h| - 1].stop then 0 else 1)
  }

  lemma {:induction false} NonStopsAppend(a: seq<Step>, b: seq<Step>)
    ensures NonStops(a + b) == NonStops(a) + NonStops(b)
    decreases |b|
  {
    if b == [] {
      assert a + b == a;
    } else {
      var b' := b[..|b| - 1];
      assert (a + b)[..|a + b| - 1] == a + b';
      NonStopsAppend(a, b');
    }
  }

  /** A run of stops allows no retry. */
  lemma {:induction false} NonStopsAllStop(h: seq<Step>)
    requires forall i | 0 <= i < |h| :: h[i].stop
    ensures NonStops(h) == 0
    decreases |h|
  {
    if h != [] {
      NonStopsAllStop(h[..|h| - 1]);
    }
  }

  /** A run without a stop allows one retry per result. */
  lemma {:induction false} NonStopsNoStop(h: seq<Step>)
    requires forall i | 0 <= i < |h| :: !h[i].stop
    ensures NonStops(h) == |h|
    decreases |h|
  {
    if h != [] {
      NonStopsNoStop(h[..|h| - 1]);
    }
  }
}
