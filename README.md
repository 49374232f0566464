# golib: the consecutive-error sleeper and the string helpers

This project models two self-contained pieces of the `golib` Go library and proves their properties in Dafny.

- **The sleeper** (`sleeper.dfy`, module `ErrorSleeper`). It is a small state machine that a retry loop feeds with the outcome of each attempt. It keeps the first error of the current run of errors with one message, and the number of consecutive occurrences of that message, capped at `max + 1`.
  - When an error repeats the remembered message, the count becomes min(count + 1, max + 1), and the remembered error object is kept. When `max < 0` this lowers the count. The sleeper then waits 2^(count − 1) seconds, truncated to 0 for a negative exponent.
  - When an error with a new message arrives, the count restarts at 1 and there is no wait.
  - A success (`nil`) clears the last error and the count.
  - The class `Sleeper` holds the source's two mutable fields, and its `Eval` method updates them in place. `Eval` returns the triple the source passes to its `action` callback: the error, the count and the wait in nanoseconds. The pure function `Step` specifies one evaluation, and `Run` specifies a sequence of evaluations. The lemmas about the sleeper are stated over `Step` and `Run`.
  - By the code, the second consecutive identical error already has count 2, so it waits 2 seconds, or 1 second when `max = 0`. This matches the comment at sleeper.go:14, which says the wait is 2^n seconds for n repetitions.
- **The string helpers** (`functions.dfy`, module `Functions`).
  - `TryError` maps an optional error to its message, or to the empty string when there is no error.
  - `FilterNewLines` drops the seven line-break code points U+000A, U+000B, U+000C, U+000D, U+0085, U+2028 and U+2029.

Representation choices:

- A Go `error` is a value `Error(identity, message)`. `message` is what its `Error()` method returns. `identity` stands for the object itself, so two distinct errors can carry the same message. A nil-able error is `Option<Error>` (module `Wrappers`).
- A Go string is a `seq<char>` of code points.
- The source computes the count with `math.Min` and the wait with `math.Pow` on `float64`. These are modelled as integer `Min` and `2^n`. A negative exponent is possible only when `max < 0`. It gives a fraction that the conversion to `time.Duration` truncates to 0, and the model writes that out (`TruncPow2`). So `Eval` has no precondition on `max`. The bound lemmas and the repeat-sequence lemmas (`RepeatReports`, `RepeatFromFresh`, `SecondRepeatWait`, `RepeatWaitsNonDecreasingFrom`, `RepeatWaitsNonDecreasing`) assume `max >= 0`, so no exact-wait or monotonicity fact is proved for a negative cap.

## Model

| member | source | states |
|---|---|---|
| `Functions.TryError` | functions.go:6-11 | a present error yields exactly its message; no error yields the empty string |
| `Functions.TryErrorEmpty` | functions.go:7-10 | the result is empty exactly when there is no error or the error's message is empty |
| `Functions.TryErrorByMessage` | functions.go:7-8 | two errors give the same result exactly when their messages are equal |
| `Functions.FilterNewLines` | functions.go:13-22 | the output contains none of the seven line-break code points, is no longer than the input, and holds only characters of the input |
| `Functions.FilterIsSubsequence` | functions.go:18-19 | the output is obtained from the input by deleting characters, so the kept characters stay in their original order |
| `Functions.FilterCounts` | functions.go:16-19 | every character that is not a line break occurs in the output as often as in the input, and every line break occurs zero times |
| `Functions.FilterMembership` | functions.go:14-21 | a character is in the output if and only if it is in the input and is not a line break |
| `Functions.FilterKeepsClean` | functions.go:18-19 | an input without line breaks is returned unchanged |
| `Functions.FilterIdempotent` | functions.go:13-21 | filtering twice equals filtering once |
| `Functions.FilterLengthIff` | functions.go:14-21 | the output has the input's length if and only if the input has no line break |
| `Functions.FilterConcat` | functions.go:14 | the filter of a concatenation is the concatenation of the filters |
| `ErrorSleeper.Step` | sleeper.go:27-49 | the reported error is the evaluated one and the reported count is the new count; success clears the state and reports no wait; after an error, the remembered error has that error's message |
| `ErrorSleeper.StepNewError` | sleeper.go:37-41 | an error whose message differs from the last one (or that follows no error) is remembered, the count becomes 1, and the wait is 0 |
| `ErrorSleeper.StepRepeat` | sleeper.go:28-31 | a repeat sets the count to min(count + 1, max + 1), keeps the earlier error object, and waits 2^(count − 1) seconds, truncated to 0 for a negative exponent |
| `ErrorSleeper.StepByMessage` | sleeper.go:28 | errors are compared by message: two distinct errors with the same message give the same count, the same wait and the same remembered message |
| `ErrorSleeper.StepReachable` | sleeper.go:27-49 | every evaluation preserves the state invariant: no last error means a zero count, and for max ≥ 0 a remembered error has a count in [1, max + 1] |
| `ErrorSleeper.StepBounds` | sleeper.go:30-35 | for max ≥ 0, the reported count lies in [0, max + 1] and the wait is at most 2^max seconds |
| `ErrorSleeper.Run` | sleeper.go:27-49 | a sequence of evaluations yields exactly one report per evaluation |
| `ErrorSleeper.RunReportsEach` | sleeper.go:33-45 | the i-th report of a run carries the i-th evaluated error (nil for a success) |
| `ErrorSleeper.RunBounds` | sleeper.go:30-35 | for max ≥ 0, over any run from a reachable state, every count is in [0, max + 1], every wait is at most 2^max seconds, and the final state is reachable |
| `ErrorSleeper.RunResetsOnSuccess` | sleeper.go:43-48 | a success anywhere in a run reports (nil, 0, 0), and every later report is what a fresh sleeper would give |
| `ErrorSleeper.RunSplit` | sleeper.go:27-49 | running two sequences back to back equals running their concatenation |
| `ErrorSleeper.RepeatReports` | sleeper.go:28-31 | after k consecutive occurrences of a message, the i-th further repeat reports count min(k + i + 1, max + 1) and waits 2^min(k + i, max) seconds |
| `ErrorSleeper.RepeatFromFresh` | sleeper.go:13-15 | from a fresh sleeper, a run of errors with one message reports counts min(i + 1, max + 1), waits 0 first and 2^min(i, max) seconds after that |
| `ErrorSleeper.SecondRepeatWait` | sleeper.go:30-31 | from a fresh sleeper, the first error waits 0 and the second with the same message has count min(2, max + 1) and waits 2 s (1 s when max = 0) |
| `ErrorSleeper.RepeatWaitsNonDecreasingFrom` | sleeper.go:27-35 | for max ≥ 0, over a run of errors with one message from any reachable state (fresh, mid-way through repeats of that message, or after a different error), a later wait is never shorter than an earlier one |
| `ErrorSleeper.RepeatWaitsNonDecreasing` | sleeper.go:27-35 | over a run of errors with one message from a fresh sleeper, a later wait is never shorter than an earlier one (the fresh-sleeper case of the lemma above) |
| `ErrorSleeper.Sleeper.constructor` | sleeper.go:53-55 | a new sleeper has the given cap, no last error and a zero count |
| `ErrorSleeper.Sleeper.Eval` | sleeper.go:27-50 | updates the last error and the count in place exactly as `Step` does, returns the triple handed to the action, keeps the state invariant, and for max ≥ 0 keeps the count in [0, max + 1] and the wait at most 2^max seconds |

## Left out

- The sleep itself (`time.Sleep`, sleeper.go:35) and the `action` callback are left out. `Eval` returns the triple instead of passing it to the callback, and the wait is reported rather than slept.
- The `Sleeper` interface (sleeper.go:9-11) is not modelled separately. The class exposes its one method, `Eval`, directly.
- ErrorSleeper.Sleeper.Eval: the count and the wait are unbounded integers, and `ErrorSleeper.Step`, `ErrorSleeper.StepBounds`, `ErrorSleeper.RunBounds`, `ErrorSleeper.RepeatReports` and `ErrorSleeper.RepeatFromFresh` state exact counts and waits on that same unbounded arithmetic. In the source, the wait is an int64 count of nanoseconds, which overflows once the exponent reaches 34, so only when `max >= 34`. The count is a Go `int` that passes through `float64`, which is exact only for counts below 2^53. When `max` is the largest Go `int`, `s.max+1` (sleeper.go:30) wraps to the smallest `int`, so the first repeat sets the count to that negative value, where the model reports count 2.
- Functions.FilterNewLines: the input is a sequence of code points. The replacement of invalid UTF-8 bytes with U+FFFD by Go's `strings.Map` is not modelled.
- The queue clients (queue.go, queue/amq/queue.go, queue/sqs/queue.go) are left out. They are plumbing around the STOMP and AWS SDK libraries and the external retry library, and no redelivery or postpone scheduler exists in that code.
- database.go and migration.go (SQL driver and migration calls), http.go and influxdb.go (HTTP requests and the external retry library), logger.go (JSON output, timestamps, stdout and stderr) and env.go (an `os.Getenv` fallback) are left out. Each is a thin wrapper over I/O.
