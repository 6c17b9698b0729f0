# lib-retry backoff policies, modelled in Dafny

This project models the backoff-policy layer of the Go package `retry`
(`pkg/retry/backoff.go` and `pkg/retry/jitter.go`). A policy has one operation,
`Next() (time.Duration, bool)`: the wait before the next attempt, and whether to stop.
The base strategies are `Constant(interval)` and `Exponential(base)`. The decorators
are `WithMaxRetries(max, next)` and `WithJitter(next)`. They wrap another policy, and
build on `BackoffFunc`, the adapter that turns a bare function into a policy.

In Go every policy is a `BackoffFunc` over a closure. Some closures capture a mutable
`attempt` counter and a wrapped policy. Here the single class `Retry.Backoff` stands for
all of them:

- `impl` (a `Retry.Impl`) says which closure the object is.
- `next` is the wrapped policy of a decorator.
- `attempt` is the captured counter.
- `Next` dispatches to one method per closure.

`Constant` and `noRetry` are `Func` objects over a fixed function, as in Go.

Each object also keeps two ghost fields. `history` holds every result it has returned.
`innerStart` is how many results the wrapped policy had returned when it was wrapped.
`Valid()` is the object invariant. For each closure it ties `history` and `attempt`
to the wrapped policy's history:

- A `Func` always returns `f()`.
- The (i+1)-th result of `Exponential(base)` is `(base << i, false)`, and `attempt` is
  the number of calls.
- `WithMaxRetries` keeps `0 <= attempt <= max`. Every counted call appends one result
  to the inner history, and each of its results is the forwarded inner result or `(0, true)`.
- `WithJitter` makes one inner call per call, and each result is a jittered inner result.

Durations are unbounded integers of nanoseconds. The random draw of `rand.Intn(1000)`
is `Jitter.Intn`, a method that may return any `k` with `0 <= k < n`.

The modules are:

- `Steps`: the result type and counting of non-stop results.
- `Jitter`: the draw and what a jittered result may be.
- `Retry`: the policies.
- `Properties`: lemmas over call sequences.
- `Scenarios`: clients driving composed policies, after the package's tests.

## Model

| member | source | states |
|---|---|---|
| `Retry.Backoff.Next` | pkg/retry/backoff.go:21-25 | every call appends its result to `history` and keeps `Valid()`. Per closure: a `Func` returns `f()` and keeps no state; `Exponential` bumps `attempt` and waits `base << old(attempt)`; `WithMaxRetries` past `max` stops and leaves the wrapped policy unchanged, and before that counts the call and forwards one new inner result; `WithJitter` makes one inner call, leaves its own counter alone and returns a jittered result. Each decorator's inner call appends one result to the wrapped policy's history and keeps its earlier results |
| `Retry.Backoff.NextFunc` | pkg/retry/backoff.go:30-33 | `BackoffFunc.Next` returns exactly what the wrapped function returns and changes nothing but the history |
| `Retry.Backoff.NextExponential` | pkg/retry/backoff.go:66-70 | the counter goes up by exactly one; the result is `(base << (attempt - 1), false)` for the new counter |
| `Retry.Backoff.NextMaxRetries` | pkg/retry/backoff.go:43-55 | once `attempt >= max`: `(0, true)`, counter unchanged, the wrapped policy not consulted (all its objects unchanged); before that: counter +1, exactly one inner call that appends one result and keeps the inner's earlier results, an inner stop becomes `(0, true)` and an inner wait is returned unchanged with `stop = false` |
| `Retry.Backoff.NextJitter` | pkg/retry/jitter.go:26-33 | exactly one inner call, which appends one result and keeps the inner's earlier results; no state of its own changes; an inner stop becomes `(0, true)`; an inner wait `v` becomes `v + k ms` for a whole `k` with `0 <= k < 1000` |
| `Retry.Backoff.Func` | pkg/retry/backoff.go:27-28 | `BackoffFunc(f)` is a policy over `f` with no history |
| `Retry.Backoff.Constant` | pkg/retry/backoff.go:73-78 | a stateless policy whose function returns `(interval, false)` |
| `Retry.Backoff.Exponential` | pkg/retry/backoff.go:62-65 | an exponential policy over `base` whose counter starts at 0 |
| `Retry.Backoff.WithMaxRetries` | pkg/retry/backoff.go:35-42 | `max <= 0` gives the stateless `noRetry` policy, whose function returns `(0, true)` and which drops the wrapped policy; otherwise a decorator that owns the wrapped policy, counter at 0 |
| `Retry.Backoff.WithJitter` | pkg/retry/jitter.go:22-25 | a stateless decorator that owns the wrapped policy |
| `Jitter.Intn` | pkg/retry/jitter.go:32 | the draw `rand.Intn(n)` is some integer in `[0, n)` for a positive `n`, and nothing more |
| `Jitter.Apply` | pkg/retry/jitter.go:28-32 | the result for a draw `k` satisfies `Jittered`: a stop stays `(0, true)`; a wait grows by exactly `k` milliseconds, staying within `[v, v + 1000ms)` |
| `Jitter.JitteredHasDraw` | pkg/retry/jitter.go:32 | conversely, every result `Jittered` admits is `Apply` of some draw in `[0, 1000)` |
| `Properties.NeverStopsHistory` | pkg/retry/backoff.go:62-78 | a chain built from `Exponential`, non-stopping functions and `WithJitter` has never returned a stop |
| `Properties.MaxRetriesBounds` | pkg/retry/backoff.go:41-47 | over any sequence of calls `0 <= attempt <= max`, the wrapped policy was consulted exactly `attempt` times, at most `attempt` (so at most `max`) results were non-stop, and every result from the (max+1)-th call on is `(0, true)` |
| `Properties.MaxRetriesOverNeverStopping` | pkg/retry/backoff.go:44-54 | over a never-stopping wrapped policy, the (i+1)-th result stops exactly when `i >= max`, the first `max` results are the inner results unchanged, and the number of non-stop results is `min(calls, max)` |
| `Properties.ExponentialDoubles` | pkg/retry/backoff.go:64-70 | the counter equals the number of calls; the first result is `(base, false)` and each later one is a non-stop wait twice the previous one |
| `Properties.FuncRepeats` | pkg/retry/backoff.go:74-78 | all results of a `BackoffFunc` over a fixed function, such as `Constant`, are equal |
| `Properties.JitterBounds` | pkg/retry/jitter.go:22-33 | the results match the wrapped policy's results one to one; the stop flag passes through, a stop is `(0, true)`, and a wait `v` becomes one in `[v, v + 1000ms)` that differs from `v` by whole milliseconds |
| `Properties.JitterOverConstant` | pkg/retry/jitter.go:22-32 | every result of `WithJitter(Constant(d))` is a wait in `[d, d + 1000ms)` |
| `Scenarios.ExitOnMaxAttempt` | pkg/retry/retry_test.go:30-45 | over any `n >= 4` calls, `WithMaxRetries(3, ·)` over a function always waiting 1ns returns three 1ns waits and then a stop on every later call, which is four attempts for a retry loop over an always failing operation |
| `Scenarios.NoRetries` | pkg/retry/backoff.go:37-39 | over any number `n` of calls, `WithMaxRetries(max, ·)` with `max <= 0` returns `(0, true)` on every one, whatever it wraps |
| `Scenarios.CapOverJitter` | pkg/retry/backoff.go:43-55 | `WithMaxRetries(3, WithJitter(Constant(d)))` gives three non-stop waits in `[d, d + 1000ms)` and then `(0, true)` |
| `Scenarios.JitterOverCap` | pkg/retry/jitter.go:26-33 | `WithJitter(WithMaxRetries(3, Constant(d)))` gives the same shape: three non-stop waits in `[d, d + 1000ms)`, then `(0, true)` |

## Left out

- `retry.Do`, the retry loop, is not part of this model, and neither are `context.Context`, deadlines and cancellation. Its source is not among the modelled files, and its interesting behaviour is a race between a timer and cancellation. The tests' attempt count is stated at the policy level instead (`Scenarios.ExitOnMaxAttempt`). The tests `exit_no_error` and `context_canceled` concern only the loop.
- `Retry.Backoff.NextExponential`: does not model the int64 wrap-around of `base << (attempt - 1)`. The result is the unbounded `base * 2^(attempt-1)`. Go's result differs once that leaves the int64 range, and is 0 from a shift count of 64 on. The counter's own overflow after 2^63 calls is left out too.
- `Retry.Backoff.NextJitter`: does not model the int64 wrap-around of `v + k * time.Millisecond` near the int64 maximum. The sum is unbounded.
- `math/rand`: the draw is constrained to its range only. There is no claim about its distribution and no model of the global generator's locking.
- `BackoffFunc` over a function with state of its own: `Retry.Backoff.Func` takes a Dafny function `() -> Step`, which has no state. User-written stateful closures are not covered. The model has no interface type, so the class stands only for the closures the package itself builds.
- Sharing of `noRetry`: Go returns one package-level value, while the model builds a fresh stateless object per call. That object has no state, so the difference cannot be observed through `Next`.
- Aliasing: once a policy is wrapped, `Valid()` of the wrapper depends on the wrapped policy's history. Calling the wrapped policy directly voids that invariant and so rules out further verified calls on the wrapper. Go does not forbid such calls, and their effect is not modelled.
- The model follows the code where a plainer reading of the package might differ. Nothing in `backoff.go` requires waits to be non-negative, so negative intervals and bases are accepted as they are. A stop seen by `WithJitter` and `WithMaxRetries` is returned as `(0, true)`, and its duration is not passed through.
