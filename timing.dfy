/**
 * The two timer-driven rate limiters of the client. The wall clock and the timer queue are
 * made explicit: every call is handed the current time `now` (which never goes backwards),
 * a scheduled callback is a `pending` deadline, and the timer firing is the method `Fire`,
 * which the event loop calls at or after that deadline. Each handler run is logged in `runs`
 * with the time it happened.
 */
module Timing {
  import opened Wrappers

  /** `Debounce`: every trigger postpones the single scheduled run to `delay` after it. */
  class Debounce {
    const delay: int
    var pending: Option<int>
    var clock: int
    var runs: seq<int>

    constructor (delay: int, start: int)
      ensures this.delay == delay && clock == start
      ensures pending == None && runs == []
    {
      this.delay := delay;
      pending := None;
      clock := start;
      runs := [];
    }

    method Trigger(now: int)
      requires now >= clock
      modifies this
      ensures clock == now
      ensures pending == Some(now + delay)
      ensures runs == old(runs)
    {
      clock := now;
      pending := Some(now + delay);
    }

    method Fire(now: int)
      requires pending.Some? && now >= pending.value && now >= clock
      modifies this
      ensures clock == now
      ensures runs == old(runs) + [now]
      ensures pending == None
    {
      clock := now;
      runs := runs + [now];
      pending := None;
    }
  }

  /**
   * A burst of triggers with no timer firing in between ends in exactly one handler run,
   * `delay` after the last trigger.
   */
  method DebounceBurst(delay: int, start: int, times: seq<int>) returns (runs: seq<int>)
    requires |times| > 0 && start <= times[0]
    requires forall i :: 0 < i < |times| ==> times[i - 1] <= times[i]
    requires delay >= 0
    ensures runs == [times[|times| - 1] + delay]
  {
    var d := new Debounce(delay, start);
    var i := 0;
    while i < |times|
      invariant 0 <= i <= |times|
      invariant d.runs == []
      invariant i == 0 ==> d.pending == None && d.clock == start
      invariant i > 0 ==> d.pending == Some(times[i - 1] + delay) && d.clock == times[i - 1]
    {
      d.Trigger(times[i]);
      i := i + 1;
    }
    d.Fire(times[|times| - 1] + delay);
    runs := d.runs;
  }

  /**
   * `Throttle`, as the client has it. Two quirks are kept: the callback is scheduled
   * `now - lastExecution` after the trigger (the time already elapsed, not the time still to
   * wait), and it runs the handler before it looks at the clock again, so that it may run
   * the handler a second time through `trigger`.
   */
  class Throttle {
    const delay: int
    var lastExecution: int
    var pending: Option<int>
    var clock: int
    var runs: seq<int>

    ghost predicate Valid()
      reads this
    {
      0 <= lastExecution <= clock
    }

    constructor (delay: int, start: int)
      requires start >= 0
      ensures Valid()
      ensures this.delay == delay && clock == start
      ensures lastExecution == 0 && pending == None && runs == []
    {
      this.delay := delay;
      lastExecution := 0;
      pending := None;
      clock := start;
      runs := [];
    }

    method Trigger(now: int)
      requires Valid() && now >= clock
      modifies this
      ensures Valid() && clock == now
      ensures lastExecution >= old(lastExecution)
      ensures now - old(lastExecution) >= delay ==>
        runs == old(runs) + [now] && lastExecution == now && pending == old(pending)
      ensures now - old(lastExecution) < delay ==>
        runs == old(runs) && lastExecution == old(lastExecution)
        && pending == Some(now + (now - old(lastExecution)))
    {
      clock := now;
      if now - lastExecution >= delay {
        runs := runs + [now];
        lastExecution := now;
        return;
      }
      pending := Some(now + (now - lastExecution));
    }

    method Fire(now: int)
      requires Valid() && pending.Some? && now >= pending.value && now >= clock
      modifies this
      ensures Valid() && clock == now
      ensures lastExecution == now && lastExecution >= old(lastExecution)
      ensures pending == None
      ensures now - old(lastExecution) >= delay ==> runs == old(runs) + [now, now]
      ensures now - old(lastExecution) < delay ==> runs == old(runs) + [now]
    {
      clock := now;
      runs := runs + [now];
      if now - lastExecution >= delay {
        Trigger(now);
      } else {
        lastExecution := now;
      }
      pending := None;
    }
  }

  /**
   * A throttle with delay 500 that last ran at 10000 and is triggered at 10010 schedules
   * its callback for 10020, where the handler runs again only 20 after the previous run.
   */
  method ThrottleEarlyFire() returns (runs: seq<int>)
    ensures runs == [10000, 10020]
    ensures runs[1] - runs[0] < 500
  {
    var t := new Throttle(500, 10000);
    t.Trigger(10000);
    t.Trigger(10010);
    assert t.pending == Some(10020);
    t.Fire(10020);
    runs := t.runs;
  }

  /**
   * Triggers at 10000, 10100, 10200 and 10400 with delay 500: the leading run, then a single
   * callback (at 10800) that runs the handler twice.
   */
  method ThrottleDoubleRun() returns (runs: seq<int>)
    ensures runs == [10000, 10800, 10800]
  {
    var t := new Throttle(500, 10000);
    t.Trigger(10000);
    t.Trigger(10100);
    t.Trigger(10200);
    t.Trigger(10400);
    assert t.pending == Some(10800);
    t.Fire(10800);
    runs := t.runs;
  }

  /** Consecutive handler runs are at least `delay` apart. */
  ghost predicate Spaced(runs: seq<int>, delay: int)
  {
    forall i :: 0 < i < |runs| ==> runs[i] - runs[i - 1] >= delay
  }

  /**
   * The throttle as intended: the callback is due `delay` after the last run, it runs the
   * handler once, and a run made directly by `Trigger` cancels a callback that is overdue.
   */
  class SpacedThrottle {
    const delay: int
    var lastExecution: int
    var pending: Option<int>
    var clock: int
    var runs: seq<int>

    ghost predicate Valid()
      reads this
    {
      && 0 <= lastExecution <= clock
      && Spaced(runs, delay)
      && (|runs| > 0 ==> runs[|runs| - 1] == lastExecution)
      && (pending.Some? ==> pending.value == lastExecution + delay)
    }

    constructor (delay: int, start: int)
      requires start >= 0
      ensures Valid()
      ensures this.delay == delay && clock == start
      ensures lastExecution == 0 && pending == None && runs == []
    {
      this.delay := delay;
      lastExecution := 0;
      pending := None;
      clock := start;
      runs := [];
    }

    method Trigger(now: int)
      requires Valid() && now >= clock
      modifies this
      ensures Valid() && clock == now
      ensures now - old(lastExecution) >= delay ==>
        runs == old(runs) + [now] && lastExecution == now && pending == None
      ensures now - old(lastExecution) < delay ==>
        runs == old(runs) && lastExecution == old(lastExecution)
        && pending == Some(old(lastExecution) + delay)
    {
      clock := now;
      if now - lastExecution >= delay {
        runs := runs + [now];
        lastExecution := now;
        pending := None;
        return;
      }
      pending := Some(lastExecution + delay);
    }

    method Fire(now: int)
      requires Valid() && pending.Some? && now >= pending.value && now >= clock
      modifies this
      ensures Valid() && clock == now
      ensures runs == old(runs) + [now] && lastExecution == now
      ensures pending == None
    {
      clock := now;
      runs := runs + [now];
      lastExecution := now;
      pending := None;
    }
  }

  /** The burst of ThrottleDoubleRun on the intended throttle: the leading run and one at 10500. */
  method SpacedThrottleBurst() returns (runs: seq<int>)
    ensures runs == [10000, 10500]
  {
    var t := new SpacedThrottle(500, 10000);
    t.Trigger(10000);
    t.Trigger(10100);
    t.Trigger(10200);
    t.Trigger(10400);
    t.Fire(10500);
    runs := t.runs;
  }
}
