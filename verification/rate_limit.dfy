/** The per-address rate limiter: one stored window, and what it guarantees over whole runs. */
module RateLimit {
  import opened Wrappers

  /** The stored pair `(window_start, call_count)`. */
  datatype Entry = Entry(windowStart: u32, callCount: u32)

  /** The window a call at `ledger` falls in: the stored one, or a fresh one. */
  function Current(entry: Option<Entry>, ledger: u32, window: u32): Entry {
    match entry
    case None => Entry(ledger, 0)
    case Some(e) => if ledger >= SatAdd32(e.windowStart, window) then Entry(ledger, 0) else e
  }

  function Record(entry: Option<Entry>, ledger: u32, window: u32, maxCalls: u32): (Option<Entry>, bool) {
    var e := Current(entry, ledger, window);
    if e.callCount >= maxCalls then
      (entry, false)
    else
      (Some(Entry(e.windowStart, SatAdd32(e.callCount, 1))), true)
  }

  class Limiter {
    var stored: Option<Entry>

    constructor ()
      ensures stored == None
    {
      stored := None;
    }

    method CheckAndRecord(ledger: u32, window: u32, maxCalls: u32) returns (allowed: bool)
      modifies this
      ensures (stored, allowed) == Record(old(stored), ledger, window, maxCalls)
    {
      var windowStart, callCount := ledger, 0;
      if stored.Some? {
        var windowEnd := SatAdd32(stored.value.windowStart, window);
        if ledger < windowEnd {
          windowStart, callCount := stored.value.windowStart, stored.value.callCount;
        }
      }
      if callCount >= maxCalls {
        return false;
      }
      stored := Some(Entry(windowStart, SatAdd32(callCount, 1)));
      return true;
    }
  }

  // ----- runs

  /** The stored entry and the ledgers of the allowed calls, after calls at `ledgers`. */
  function Calls(ledgers: seq<u32>, window: u32, maxCalls: u32): (Option<Entry>, seq<u32>) {
    if ledgers == [] then
      (None, [])
    else
      var (entry, allowed) := Calls(ledgers[..|ledgers| - 1], window, maxCalls);
      var (next, ok) := Record(entry, ledgers[|ledgers| - 1], window, maxCalls);
      (next, if ok then allowed + [ledgers[|ledgers| - 1]] else allowed)
  }

  /** How many of the calls lie in `[low, high)`. */
  function CountIn(calls: seq<u32>, low: int, high: int): nat {
    if calls == [] then
      0
    else
      CountIn(calls[..|calls| - 1], low, high) + if low <= calls[|calls| - 1] < high then 1 else 0
  }

  predicate NonDecreasing(ledgers: seq<u32>) {
    forall i, j :: 0 <= i < j < |ledgers| ==> ledgers[i] <= ledgers[j]
  }

  lemma {:induction false} CountSplits(calls: seq<u32>, low: int, mid: int, high: int)
    requires low <= mid <= high
    ensures CountIn(calls, low, high) == CountIn(calls, low, mid) + CountIn(calls, mid, high)
  {
    if calls != [] {
      CountSplits(calls[..|calls| - 1], low, mid, high);
    }
  }

  /** All calls lie before `bound`. */
  ghost predicate Before(calls: seq<u32>, bound: int) {
    forall k :: 0 <= k < |calls| ==> calls[k] < bound
  }

  lemma {:induction false} CountNone(calls: seq<u32>, low: int, high: int)
    requires Before(calls, low)
    ensures CountIn(calls, low, high) == 0
  {
    if calls != [] {
      CountNone(calls[..|calls| - 1], low, high);
    }
  }

  lemma CountWithin(calls: seq<u32>, low: int, high: int, low': int, high': int)
    requires low' <= low <= high <= high'
    ensures CountIn(calls, low, high) <= CountIn(calls, low', high')
  {
    CountSplits(calls, low', low, high');
    CountSplits(calls, low, high, high');
  }

  lemma CountAppend(calls: seq<u32>, ledger: u32, low: int, high: int)
    ensures CountIn(calls + [ledger], low, high) == CountIn(calls, low, high) + if low <= ledger < high then 1 else 0
  {
    assert (calls + [ledger])[..|calls|] == calls;
  }

  /** Any `window` consecutive ledgers hold fewer calls than twice the maximum. */
  ghost predicate FewerThanTwice(calls: seq<u32>, window: u32, maxCalls: u32) {
    forall low: int, high: int :: high == low + window ==>
      CountIn(calls, low, high) <= if maxCalls == 0 then 0 else 2 * maxCalls - 1
  }

  /** A stretch of fewer than `window` ledgers that ends at `start` holds fewer than the maximum. */
  ghost predicate FewBefore(calls: seq<u32>, start: int, window: u32, maxCalls: u32) {
    forall low: int :: start - window < low <= start ==>
      CountIn(calls, low, start) <= if maxCalls == 0 then 0 else maxCalls - 1
  }

  /** The stored entry counts the allowed calls since its window began, the first of them at its start, and the calls
      before it are few enough. */
  ghost predicate Kept(entry: Option<Entry>, calls: seq<u32>, last: u32, window: u32, maxCalls: u32) {
    && Before(calls, last + 1)
    && FewerThanTwice(calls, window, maxCalls)
    && (entry == None ==> calls == [])
    && (entry.Some? ==>
          var start := entry.value.windowStart;
          && start <= last
          && entry.value.callCount == CountIn(calls, start, last + 1) <= maxCalls
          && CountIn(calls, start, start + 1) >= 1
          && Before(calls, start + window)
          && FewBefore(calls, start, window, maxCalls))
  }

  /** A fresh window: the calls of the old one now lie before it. */
  lemma FreshWindowKeeps(entry: Option<Entry>, calls: seq<u32>, last: u32, ledger: u32, window: u32, maxCalls: u32)
    requires Kept(entry, calls, last, window, maxCalls) && last <= ledger
    requires entry.Some? ==> entry.value.windowStart + window <= ledger
    ensures FewBefore(calls, ledger, window, maxCalls)
    ensures CountIn(calls, ledger, ledger + 1) == 0
  {
    if entry.Some? {
      var start := entry.value.windowStart;
      CountNone(calls, ledger, ledger + 1);
      CountNone(calls, last + 1, ledger + 1);
      CountSplits(calls, start, last + 1, ledger + 1);
      CountSplits(calls, start, start + 1, ledger + 1);
      forall low: int | ledger - window < low <= ledger
        ensures CountIn(calls, low, ledger) <= if maxCalls == 0 then 0 else maxCalls - 1
      {
        CountWithin(calls, low, ledger, start + 1, ledger + 1);
      }
    }
  }

  /** An allowed call keeps every window below twice the maximum. */
  lemma AllowedCallKeeps(calls: seq<u32>, start: u32, ledger: u32, window: u32, maxCalls: u32)
    requires FewerThanTwice(calls, window, maxCalls) && FewBefore(calls, start, window, maxCalls)
    requires Before(calls, ledger + 1)
    requires start <= ledger < start + window
    requires CountIn(calls, start, ledger + 1) < maxCalls
    ensures FewerThanTwice(calls + [ledger], window, maxCalls)
    ensures FewBefore(calls + [ledger], start, window, maxCalls)
  {
    forall low: int, high: int | high == low + window
      ensures CountIn(calls + [ledger], low, high) <= 2 * maxCalls - 1
    {
      CountAppend(calls, ledger, low, high);
      if low <= ledger < high {
        CountNone(calls, ledger + 1, high);
        if low <= start {
          CountSplits(calls, low, start, high);
          CountSplits(calls, start, ledger + 1, high);
        } else {
          CountWithin(calls, low, ledger + 1, start, ledger + 1);
          CountSplits(calls, low, ledger + 1, high);
        }
      }
    }
    forall low: int | start - window < low <= start
      ensures CountIn(calls + [ledger], low, start) <= maxCalls - 1
    {
      CountAppend(calls, ledger, low, start);
    }
  }

  lemma CallKeeps(entry: Option<Entry>, calls: seq<u32>, last: u32, ledger: u32, window: u32, maxCalls: u32)
    requires Kept(entry, calls, last, window, maxCalls)
    requires window >= 1 && last <= ledger < U32_MAX
    ensures var (next, ok) := Record(entry, ledger, window, maxCalls);
            Kept(next, if ok then calls + [ledger] else calls, ledger, window, maxCalls)
  {
    var e := Current(entry, ledger, window);
    var (next, ok) := Record(entry, ledger, window, maxCalls);
    CountNone(calls, last + 1, ledger + 1);
    if entry.Some? {
      CountSplits(calls, entry.value.windowStart, last + 1, ledger + 1);
    }
    if entry == None || ledger >= entry.value.windowStart + window {
      FreshWindowKeeps(entry, calls, last, ledger, window, maxCalls);
    }
    if ok {
      AllowedCallKeeps(calls, e.windowStart, ledger, window, maxCalls);
      CountAppend(calls, ledger, e.windowStart, ledger + 1);
      CountAppend(calls, ledger, e.windowStart, e.windowStart + 1);
    }
  }

  lemma {:induction false} RunKeeps(ledgers: seq<u32>, window: u32, maxCalls: u32)
    requires window >= 1 && NonDecreasing(ledgers) && Before(ledgers, U32_MAX)
    ensures var (entry, calls) := Calls(ledgers, window, maxCalls);
            Kept(entry, calls, if ledgers == [] then 0 else ledgers[|ledgers| - 1], window, maxCalls)
  {
    if ledgers == [] {
      forall low: int, high: int
        ensures CountIn([], low, high) == 0
      {
      }
    } else {
      var before, ledger := ledgers[..|ledgers| - 1], ledgers[|ledgers| - 1];
      RunKeeps(before, window, maxCalls);
      var (entry, calls) := Calls(before, window, maxCalls);
      CallKeeps(entry, calls, if before == [] then 0 else before[|before| - 1], ledger, window, maxCalls);
    }
  }

  /** Over any run with non-decreasing ledgers before `u32::MAX`, the window stored last holds at most `max_calls`
      allowed calls, and any `window` consecutive ledgers at most `2 * max_calls - 1`. */
  lemma CallsAreLimited(ledgers: seq<u32>, window: u32, maxCalls: u32)
    requires window >= 1 && NonDecreasing(ledgers) && Before(ledgers, U32_MAX)
    ensures var (entry, calls) := Calls(ledgers, window, maxCalls);
            && FewerThanTwice(calls, window, maxCalls)
            && (entry.Some? ==>
                  CountIn(calls, entry.value.windowStart, entry.value.windowStart + window) <= maxCalls)
  {
    RunKeeps(ledgers, window, maxCalls);
    var (entry, calls) := Calls(ledgers, window, maxCalls);
    if entry.Some? {
      var end: int := ledgers[|ledgers| - 1] + 1;
      var start := entry.value.windowStart;
      CountNone(calls, end, end + window);
      CountSplits(calls, start, end, end + window);
      CountWithin(calls, start, start + window, start, end + window);
    }
  }

  /** A call is refused exactly when no call is allowed at all, or when the stored window still runs and already holds
      `max_calls` allowed calls. */
  lemma RefusedExactlyWhenFull(ledgers: seq<u32>, ledger: u32, window: u32, maxCalls: u32)
    requires window >= 1 && NonDecreasing(ledgers) && Before(ledgers, U32_MAX)
    requires Before(ledgers, ledger + 1) && ledger < U32_MAX
    ensures var (entry, calls) := Calls(ledgers, window, maxCalls);
            !Record(entry, ledger, window, maxCalls).1 <==>
              || maxCalls == 0
              || (entry.Some? && ledger < entry.value.windowStart + window
                  && CountIn(calls, entry.value.windowStart, entry.value.windowStart + window) == maxCalls)
  {
    RunKeeps(ledgers, window, maxCalls);
    var (entry, calls) := Calls(ledgers, window, maxCalls);
    if entry.Some? {
      var start, end: int := entry.value.windowStart, ledgers[|ledgers| - 1] + 1;
      if end <= start + window {
        CountSplits(calls, start, end, start + window);
        CountNone(calls, end, start + window);
      } else {
        CountSplits(calls, start, start + window, end);
        CountNone(calls, start + window, end);
      }
    }
  }

  // ----- every window of a run

  /** The window stored after the first `k` calls. */
  function WindowAfter(ledgers: seq<u32>, k: nat, window: u32, maxCalls: u32): Option<Entry>
    requires k <= |ledgers|
  {
    Calls(ledgers[..k], window, maxCalls).0
  }

  lemma LastCall(ledgers: seq<u32>, window: u32, maxCalls: u32)
    requires ledgers != []
    ensures var n := |ledgers| - 1;
            var (next, ok) := Record(WindowAfter(ledgers, n, window, maxCalls), ledgers[n], window, maxCalls);
            && WindowAfter(ledgers, n + 1, window, maxCalls) == next
            && Calls(ledgers, window, maxCalls)
               == (next, Calls(ledgers[..n], window, maxCalls).1 + if ok then [ledgers[n]] else [])
  {
    assert ledgers[..|ledgers|] == ledgers;
    var calls := Calls(ledgers[..|ledgers| - 1], window, maxCalls).1;
    assert calls + [] == calls;
  }

  /** A stored window is kept, or is over when the next one starts. */
  lemma {:induction false} WindowsAreApart(ledgers: seq<u32>, k: nat, window: u32, maxCalls: u32)
    requires window >= 1 && NonDecreasing(ledgers) && Before(ledgers, U32_MAX) && k <= |ledgers|
    requires WindowAfter(ledgers, k, window, maxCalls).Some?
    ensures var end := WindowAfter(ledgers, |ledgers|, window, maxCalls);
            && end.Some?
            && var first, last := WindowAfter(ledgers, k, window, maxCalls).value.windowStart, end.value.windowStart;
               first == last || first + window <= last
  {
    if k < |ledgers| {
      var n := |ledgers| - 1;
      assert ledgers[..n][..k] == ledgers[..k] && ledgers[..n][..n] == ledgers[..n];
      WindowsAreApart(ledgers[..n], k, window, maxCalls);
      LastCall(ledgers, window, maxCalls);
    }
  }

  /** Every window anchored during a run holds at most `max_calls` of all the calls that the run allows. */
  lemma {:induction false} EveryWindowIsLimited(ledgers: seq<u32>, k: nat, window: u32, maxCalls: u32)
    requires window >= 1 && NonDecreasing(ledgers) && Before(ledgers, U32_MAX) && k <= |ledgers|
    requires WindowAfter(ledgers, k, window, maxCalls).Some?
    ensures var start := WindowAfter(ledgers, k, window, maxCalls).value.windowStart;
            CountIn(Calls(ledgers, window, maxCalls).1, start, start + window) <= maxCalls
    decreases |ledgers|
  {
    var n, start := |ledgers| - 1, WindowAfter(ledgers, k, window, maxCalls).value.windowStart;
    assert ledgers[..|ledgers|] == ledgers;
    CallsAreLimited(ledgers, window, maxCalls);
    WindowsAreApart(ledgers, k, window, maxCalls);
    if k < |ledgers| && WindowAfter(ledgers, |ledgers|, window, maxCalls).value.windowStart != start {
      assert ledgers[..n][..k] == ledgers[..k];
      EveryWindowIsLimited(ledgers[..n], k, window, maxCalls);
      LastCall(ledgers, window, maxCalls);
      RunKeeps(ledgers, window, maxCalls);
      CountAppend(Calls(ledgers[..n], window, maxCalls).1, ledgers[n], start, start + window);
    }
  }

  lemma CallsAppend(ledgers: seq<u32>, ledger: u32, window: u32, maxCalls: u32)
    ensures var (entry, calls) := Calls(ledgers, window, maxCalls);
            var (next, ok) := Record(entry, ledger, window, maxCalls);
            Calls(ledgers + [ledger], window, maxCalls) == (next, if ok then calls + [ledger] else calls)
  {
    assert (ledgers + [ledger])[..|ledgers|] == ledgers;
  }

  lemma FourCallsAllowed()
    ensures Calls([0, 9, 10, 10], 10, 2).1 == [0, 9, 10, 10]
  {
    CallsAppend([], 0, 10, 2);
    assert [] + [0] == [0];
    CallsAppend([0], 9, 10, 2);
    assert [0] + [9] == [0, 9];
    CallsAppend([0, 9], 10, 10, 2);
    assert [0, 9] + [10] == [0, 9, 10];
    CallsAppend([0, 9, 10], 10, 10, 2);
    assert [0, 9, 10] + [10] == [0, 9, 10, 10];
  }

  /** The bound is reached: the window is anchored at its first call and does not slide. */
  lemma BoundIsReached()
    ensures CountIn(Calls([0, 9, 10, 10], 10, 2).1, 9, 19) == 2 * 2 - 1
  {
    FourCallsAllowed();
    CountAppend([], 0, 9, 19);
    assert [] + [0] == [0];
    CountAppend([0], 9, 9, 19);
    assert [0] + [9] == [0, 9];
    CountAppend([0, 9], 10, 9, 19);
    assert [0, 9] + [10] == [0, 9, 10];
    CountAppend([0, 9, 10], 10, 9, 19);
    assert [0, 9, 10] + [10] == [0, 9, 10, 10];
  }

  /** A window of no ledgers is over at once: every call starts a fresh one and is allowed. */
  lemma {:induction false} EmptyWindowIsUnlimited(ledgers: seq<u32>, maxCalls: u32)
    requires maxCalls >= 1 && NonDecreasing(ledgers)
    ensures Calls(ledgers, 0, maxCalls).1 == ledgers
    ensures ledgers != [] ==> Calls(ledgers, 0, maxCalls).0 == Some(Entry(ledgers[|ledgers| - 1], 1))
  {
    if ledgers != [] {
      EmptyWindowIsUnlimited(ledgers[..|ledgers| - 1], maxCalls);
      assert ledgers == ledgers[..|ledgers| - 1] + [ledgers[|ledgers| - 1]];
    }
  }

  /** At the last ledger the end of the window saturates, so that every call starts a fresh window and is allowed. */
  lemma {:induction false} LastLedgerIsUnlimited(n: nat, window: u32, maxCalls: u32)
    requires maxCalls >= 1
    ensures |Calls(seq(n, _ => U32_MAX), window, maxCalls).1| == n
    ensures n > 0 ==> Calls(seq(n, _ => U32_MAX), window, maxCalls).0 == Some(Entry(U32_MAX, 1))
  {
    if n > 0 {
      LastLedgerIsUnlimited(n - 1, window, maxCalls);
      assert seq(n, _ => U32_MAX)[..n - 1] == seq(n - 1, _ => U32_MAX);
    }
  }
}
