/**
 * The consecutive-error sleeper: it keeps the first error of the current run
 * of errors with one message, and the number of consecutive occurrences of
 * that message, capped at `max + 1`. A repeat sets the count to
 * min(count + 1, max + 1) and is answered with an exponentially growing wait,
 * a new error restarts the count at 1 and a success clears everything.
 *
 * Each evaluation reports the triple the Go code hands to its `action`
 * callback (the error, the count and the wait) instead of calling it, and the
 * sleep itself is left out: `wait` is what the Go code would sleep for.
 */
module ErrorSleeper {

  import opened Wrappers
  import opened Functions

  /** One second as a duration in nanoseconds, the unit of Go's time.Duration. */
  const Second: nat := 1_000_000_000

  /** The mutable part of the sleeper: the last error and the consecutive count. */
  datatype State = State(lastError: Option<Error>, errors: int)

  /** What one evaluation passes to the action: the error, the count and the wait in nanoseconds. */
  datatype Report = Report(error: Option<Error>, errors: int, wait: nat)

  const Fresh := State(None, 0)

  function Min(a: int, b: int): (m: int)
    ensures m <= a && m <= b && (m == a || m == b)
  {
    if a <= b then a else b
  }

  function Pow2(n: nat): (r: nat)
    ensures r >= 1
  {
    if n == 0 then 1 else 2 * Pow2(n - 1)
  }

  /**
   * 2 raised to `n`, truncated to a whole number as Go's float-to-
   * `time.Duration` conversion does: any negative exponent gives a fraction,
   * hence 0.
   */
  function TruncPow2(n: int): (r: nat)
    ensures r == 0 <==> n < 0
  {
    if n < 0 then 0 else Pow2(n)
  }

  lemma {:induction false} Pow2Monotone(m: nat, n: nat)
    requires m <= n
    ensures Pow2(m) <= Pow2(n)
  {
    if m < n {
      Pow2Monotone(m, n - 1);
    }
  }

  /** A wait of 2^m seconds is no longer than one of 2^n seconds when m <= n. */
  lemma WaitMonotone(m: nat, n: nat)
    requires m <= n
    ensures Second * Pow2(m) <= Second * Pow2(n)
  {
    Pow2Monotone(m, n);
  }

  /** `err` repeats the last error: both are present and their messages are equal. */
  predicate Repeats(s: State, err: Option<Error>)
  {
    s.lastError.Some? && err.Some? && s.lastError.value.message == err.value.message
  }

  /**
   * One evaluation of `err` by a sleeper with cap `max` in state `s`: the new
   * state and the report given to the action.
   */
  function Step(max: int, s: State, err: Option<Error>): (res: (State, Report))
    ensures res.1.error == err && res.1.errors == res.0.errors
    ensures err.None? ==> res.0 == Fresh && res.1.wait == 0
    ensures err.Some? ==> res.0.lastError.Some? && res.0.lastError.value.message == err.value.message
  {
    if Repeats(s, err) then
      var n := Min(s.errors + 1, max + 1);
      (State(s.lastError, n), Report(err, n, Second * TruncPow2(n - 1)))
    else if err.Some? then
      (State(err, 1), Report(err, 1, 0))
    else
      (Fresh, Report(None, 0, 0))
  }

  /** A new error (one whose message differs from the last) restarts the count at 1, with no wait. */
  lemma StepNewError(max: int, s: State, e: Error)
    requires !Repeats(s, Some(e))
    ensures Step(max, s, Some(e)) == (State(Some(e), 1), Report(Some(e), 1, 0))
  {
  }

  /**
   * A repeat sets the count to min(count + 1, max + 1) (which lowers it when
   * `max < 0`), keeps the earlier error object, and waits 2^(count - 1)
   * seconds, truncated to 0 for a negative exponent.
   */
  lemma StepRepeat(max: int, s: State, e: Error)
    requires Repeats(s, Some(e))
    ensures var n := Min(s.errors + 1, max + 1);
      Step(max, s, Some(e)) == (State(s.lastError, n), Report(Some(e), n, Second * TruncPow2(n - 1)))
  {
  }

  /** Errors are compared by message only: two distinct errors with one message are treated alike. */
  lemma StepByMessage(max: int, s: State, e1: Error, e2: Error)
    requires e1.message == e2.message
    ensures Step(max, s, Some(e1)).1.errors == Step(max, s, Some(e2)).1.errors
    ensures Step(max, s, Some(e1)).1.wait == Step(max, s, Some(e2)).1.wait
    ensures TryError(Step(max, s, Some(e1)).0.lastError) == TryError(Step(max, s, Some(e2)).0.lastError)
  {
  }

  /**
   * The states a sleeper can be in: no last error means a zero count, and with
   * a non-negative cap a remembered error has a count between 1 and `max + 1`.
   */
  ghost predicate Reachable(max: int, s: State)
  {
    (s.lastError.None? ==> s.errors == 0) &&
    (max >= 0 && s.lastError.Some? ==> 1 <= s.errors <= max + 1)
  }

  /** Every evaluation keeps the sleeper in a reachable state. */
  lemma StepReachable(max: int, s: State, err: Option<Error>)
    requires Reachable(max, s)
    ensures Reachable(max, Step(max, s, err).0)
  {
  }

  /**
   * With a non-negative cap the count stays within [0, max + 1] and no wait is
   * longer than 2^max seconds.
   */
  lemma StepBounds(max: int, s: State, err: Option<Error>)
    requires max >= 0 && Reachable(max, s)
    ensures 0 <= Step(max, s, err).1.errors <= max + 1
    ensures Step(max, s, err).1.wait <= Second * Pow2(max)
  {
    var n := Step(max, s, err).1.errors;
    if Repeats(s, err) {
      Pow2Monotone(n - 1, max);
    }
  }

  /**
   * A sequence of evaluations: the final state and one report per evaluated
   * value, in order.
   */
  function Run(max: int, s: State, errs: seq<Option<Error>>): (res: (State, seq<Report>))
    ensures |res.1| == |errs|
    decreases |errs|
  {
    if errs == [] then (s, [])
    else
      var (s1, r) := Step(max, s, errs[0]);
      var (s2, rs) := Run(max, s1, errs[1..]);
      (s2, [r] + rs)
  }

  /** The action is invoked once per evaluation, in order, each time with the evaluated error. */
  lemma {:induction false} RunReportsEach(max: int, s: State, errs: seq<Option<Error>>)
    ensures forall i :: 0 <= i < |errs| ==> Run(max, s, errs).1[i].error == errs[i]
    decreases |errs|
  {
    if errs != [] {
      var s1 := Step(max, s, errs[0]).0;
      RunReportsEach(max, s1, errs[1..]);
      forall i | 1 <= i < |errs|
        ensures Run(max, s, errs).1[i] == Run(max, s1, errs[1..]).1[i - 1]
      {
      }
    }
  }

  /** Over any run from a reachable state, every count and every wait is within the cap. */
  lemma {:induction false} RunBounds(max: int, s: State, errs: seq<Option<Error>>)
    requires max >= 0 && Reachable(max, s)
    ensures Reachable(max, Run(max, s, errs).0)
    ensures forall i :: 0 <= i < |errs| ==>
      0 <= Run(max, s, errs).1[i].errors <= max + 1 && Run(max, s, errs).1[i].wait <= Second * Pow2(max)
    decreases |errs|
  {
    if errs != [] {
      StepBounds(max, s, errs[0]);
      StepReachable(max, s, errs[0]);
      RunBounds(max, Step(max, s, errs[0]).0, errs[1..]);
    }
  }

  /** A success in the middle of any run wipes out what came before it. */
  lemma RunResetsOnSuccess(max: int, s: State, before: seq<Option<Error>>, after: seq<Option<Error>>)
    ensures Run(max, s, before + [None] + after).1[|before|] == Report(None, 0, 0)
    ensures Run(max, s, before + [None] + after).1[|before| + 1..] == Run(max, Fresh, after).1
  {
    RunSplit(max, s, before, [None] + after);
    assert before + [None] + after == before + ([None] + after);
  }

  lemma {:induction false} RunSplit(max: int, s: State, xs: seq<Option<Error>>, ys: seq<Option<Error>>)
    ensures Run(max, s, xs + ys).0 == Run(max, Run(max, s, xs).0, ys).0
    ensures Run(max, s, xs + ys).1 == Run(max, s, xs).1 + Run(max, Run(max, s, xs).0, ys).1
    decreases |xs|
  {
    if xs == [] {
      assert xs + ys == ys;
    } else {
      assert (xs + ys)[0] == xs[0];
      assert (xs + ys)[1..] == xs[1..] + ys;
      var (s1, r) := Step(max, s, xs[0]);
      RunSplit(max, s1, xs[1..], ys);
      var mid := Run(max, s1, xs[1..]).0;
      var front, back := Run(max, s1, xs[1..]).1, Run(max, mid, ys).1;
      assert Run(max, s, xs).0 == mid;
      assert Run(max, s, xs).1 == [r] + front;
      assert Run(max, s, xs + ys).1 == [r] + (front + back);
      assert [r] + (front + back) == ([r] + front) + back;
    }
  }

  /** A run of evaluations whose errors all carry the message `m`. */
  ghost predicate AllWithMessage(errs: seq<Option<Error>>, m: string)
  {
    forall i :: 0 <= i < |errs| ==> errs[i].Some? && errs[i].value.message == m
  }

  /**
   * Once an error with message `m` has been seen `k` times in a row, the i-th
   * further repeat reports count min(k + i + 1, max + 1) and waits
   * 2^min(k + i, max) seconds.
   */
  lemma {:induction false} RepeatReports(max: int, e0: Error, k: int, errs: seq<Option<Error>>)
    requires max >= 0 && 1 <= k <= max + 1
    requires AllWithMessage(errs, e0.message)
    ensures forall i :: 0 <= i < |errs| ==>
      Run(max, State(Some(e0), k), errs).1[i].errors == Min(k + i + 1, max + 1) &&
      Run(max, State(Some(e0), k), errs).1[i].wait == Second * Pow2(Min(k + i, max))
    decreases |errs|
  {
    if errs != [] {
      var s := State(Some(e0), k);
      var n := Min(k + 1, max + 1);
      assert Step(max, s, errs[0]).0 == State(Some(e0), n);
      RepeatReports(max, e0, n, errs[1..]);
      forall i | 1 <= i < |errs|
        ensures Run(max, s, errs).1[i] == Run(max, State(Some(e0), n), errs[1..]).1[i - 1]
      {
      }
    }
  }

  /**
   * From a fresh sleeper, a run of errors with one message reports counts
   * 1, 2, 3, ... up to max + 1 and waits 0, 2, 4, 8, ... seconds up to 2^max
   * (0, 1, 1, ... when max = 0).
   */
  lemma RepeatFromFresh(max: int, errs: seq<Option<Error>>, m: string)
    requires max >= 0 && AllWithMessage(errs, m)
    ensures forall i :: 0 <= i < |errs| ==>
      Run(max, Fresh, errs).1[i].errors == Min(i + 1, max + 1) &&
      Run(max, Fresh, errs).1[i].wait == (if i == 0 then 0 else Second * Pow2(Min(i, max)))
  {
    if errs != [] {
      var e0 := errs[0].value;
      assert Step(max, Fresh, errs[0]).0 == State(Some(e0), 1);
      RepeatReports(max, e0, 1, errs[1..]);
      forall i | 1 <= i < |errs|
        ensures Run(max, Fresh, errs).1[i] == Run(max, State(Some(e0), 1), errs[1..]).1[i - 1]
      {
      }
    }
  }

  /**
   * The second consecutive error with one message is the first that waits:
   * its count is min(2, max + 1), so it waits 2^1 = 2 seconds, or 1 second
   * when the cap is 0.
   */
  lemma SecondRepeatWait(max: int, e1: Error, e2: Error)
    requires max >= 0 && e1.message == e2.message
    ensures Run(max, Fresh, [Some(e1), Some(e2)]).1 ==
      [Report(Some(e1), 1, 0), Report(Some(e2), Min(2, max + 1), if max == 0 then Second else 2 * Second)]
  {
    var errs := [Some(e1), Some(e2)];
    RepeatFromFresh(max, errs, e1.message);
    assert Pow2(1) == 2;
  }

  /**
   * Over a run of errors with one message, from any reachable state (a fresh
   * sleeper, one in the middle of repeats of that message, or one that last
   * saw a different error), the waits never decrease.
   */
  lemma RepeatWaitsNonDecreasingFrom(max: int, s: State, errs: seq<Option<Error>>, m: string, i: nat, j: nat)
    requires max >= 0 && Reachable(max, s) && AllWithMessage(errs, m)
    requires i <= j < |errs|
    ensures Run(max, s, errs).1[i].wait <= Run(max, s, errs).1[j].wait
  {
    if s.lastError.Some? && s.lastError.value.message == m {
      var e0 := s.lastError.value;
      assert s == State(Some(e0), s.errors);
      RepeatWaitsOrdered(max, e0, s.errors, errs, i, j);
    } else {
      var e0 := errs[0].value;
      var s1 := State(Some(e0), 1);
      assert Step(max, s, errs[0]).0 == s1;
      if i > 0 {
        RepeatWaitsOrdered(max, e0, 1, errs[1..], i - 1, j - 1);
        RunShift(max, s, errs, i);
        RunShift(max, s, errs, j);
      }
    }
  }

  /** Waits ordered within a run of repeats that continues `k` earlier occurrences. */
  lemma RepeatWaitsOrdered(max: int, e0: Error, k: int, errs: seq<Option<Error>>, i: nat, j: nat)
    requires max >= 0 && 1 <= k <= max + 1
    requires AllWithMessage(errs, e0.message)
    requires i <= j < |errs|
    ensures Run(max, State(Some(e0), k), errs).1[i].wait <= Run(max, State(Some(e0), k), errs).1[j].wait
  {
    RepeatReports(max, e0, k, errs);
    WaitMonotone(Min(k + i, max), Min(k + j, max));
  }

  /** The report at position k > 0 of a run is the report at k - 1 of the run after the first step. */
  lemma RunShift(max: int, s: State, errs: seq<Option<Error>>, k: nat)
    requires 1 <= k < |errs|
    ensures Run(max, s, errs).1[k] == Run(max, Step(max, s, errs[0]).0, errs[1..]).1[k - 1]
  {
  }

  /** Over a run of errors with one message from a fresh sleeper, the waits never decrease. */
  lemma RepeatWaitsNonDecreasing(max: int, errs: seq<Option<Error>>, m: string, i: nat, j: nat)
    requires max >= 0 && AllWithMessage(errs, m)
    requires i <= j < |errs|
    ensures Run(max, Fresh, errs).1[i].wait <= Run(max, Fresh, errs).1[j].wait
  {
    RepeatWaitsNonDecreasingFrom(max, Fresh, errs, m, i, j);
  }

  /**
   * A sleeper: the cap `max` on the exponent, the first error of the current
   * run of errors with one message, and the number of consecutive occurrences
   * of that message, capped at `max + 1`.
   */
  class Sleeper {
    const max: int
    var lastError: Option<Error>
    var errors: int

    function Current(): (s: State)
      reads this
    {
      State(lastError, errors)
    }

    ghost predicate Valid()
      reads this
    {
      Reachable(max, Current())
    }

    /** A new sleeper has no last error and a zero count. */
    constructor (max: int)
      ensures Valid()
      ensures this.max == max && Current() == Fresh
    {
      this.max := max;
      lastError := None;
      errors := 0;
    }

    /**
     * Evaluates `err` against the last error, updates the count and returns
     * the triple given to the action; with a non-negative cap the count and
     * the wait stay within their bounds.
     */
    method Eval(err: Option<Error>) returns (report: Report)
      requires Valid()
      modifies this
      ensures Valid()
      ensures (Current(), report) == Step(max, old(Current()), err)
      ensures max >= 0 ==> 0 <= errors <= max + 1 && report.wait <= Second * Pow2(max)
    {
      if max >= 0 {
        StepBounds(max, Current(), err);
      }
      if lastError.Some? && err.Some? && lastError.value.message == err.value.message {
        errors := Min(errors + 1, max + 1);
        var wait := Second * TruncPow2(errors - 1);
        report := Report(err, errors, wait);
      } else if err.Some? {
        lastError := err;
        errors := 1;
        report := Report(err, errors, 0);
      } else {
        report := Report(None, 0, 0);
        lastError := None;
        errors := 0;
      }
    }
  }

}
