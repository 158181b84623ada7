/** The fixed-window rate limiter and what it guarantees for windows and for sliding intervals. */
module RateLimiter {
  import opened Unicode
  import opened JsonValue

  datatype Entry = Entry(windowStart: int, count: int)

  type Counts = map<Text, Entry>

  /** `check`: a call that opens a window is admitted unseen; later ones are counted against the limit. */
  function Checked(counts: Counts, limit: int, window: int, key: Text, now: int): (Counts, bool) {
    if key !in counts || now - counts[key].windowStart >= window then (counts[key := Entry(now, 1)], true)
    else
      var count := counts[key].count + 1;
      (counts[key := counts[key].(count := count)], count <= limit)
  }

  class ShadownetRateLimiter {
    const limitPerMinute: int
    const windowMs: int
    var counts: Counts

    constructor (limitPerMinute: int, windowMs: int := 60_000)
      ensures this.limitPerMinute == limitPerMinute && this.windowMs == windowMs && counts == map[]
    {
      this.limitPerMinute, this.windowMs, counts := limitPerMinute, windowMs, map[];
    }

    method Check(key: Text, now: int) returns (admitted: bool)
      modifies this
      ensures (counts, admitted) == Checked(old(counts), limitPerMinute, windowMs, key, now)
    {
      if key !in counts || now - counts[key].windowStart >= windowMs {
        counts := counts[key := Entry(now, 1)];
        return true;
      }
      var entry := counts[key].(count := counts[key].count + 1);
      counts := counts[key := entry];
      return entry.count <= limitPerMinute;
    }

    method Reset()
      modifies this
      ensures counts == map[]
    {
      counts := map[];
    }
  }

  // ----------------------------------------------------------------- runs

  datatype Call = Call(key: Text, now: int)

  predicate ClockMonotone(calls: seq<Call>) {
    forall i, j :: 0 <= i < j < |calls| ==> calls[i].now <= calls[j].now
  }

  /** The counters before call `n`. */
  function Run(limit: int, window: int, calls: seq<Call>, n: nat): Counts
    requires n <= |calls|
  {
    if n == 0 then map[]
    else Checked(Run(limit, window, calls, n - 1), limit, window, calls[n - 1].key, calls[n - 1].now).0
  }

  predicate Admitted(limit: int, window: int, calls: seq<Call>, i: nat)
    requires i < |calls|
  {
    Checked(Run(limit, window, calls, i), limit, window, calls[i].key, calls[i].now).1
  }

  predicate OpensWindow(limit: int, window: int, calls: seq<Call>, i: nat)
    requires i < |calls|
  {
    var counts := Run(limit, window, calls, i);
    calls[i].key !in counts || calls[i].now - counts[calls[i].key].windowStart >= window
  }

  function Tally(b: bool): nat { if b then 1 else 0 }

  /** Calls of a key admitted among the first `n` since its current window opened. */
  function AdmittedInWindow(limit: int, window: int, calls: seq<Call>, n: nat, key: Text): nat
    requires n <= |calls|
  {
    if n == 0 then 0
    else if calls[n - 1].key != key then AdmittedInWindow(limit, window, calls, n - 1, key)
    else if OpensWindow(limit, window, calls, n - 1) then Tally(Admitted(limit, window, calls, n - 1))
    else AdmittedInWindow(limit, window, calls, n - 1, key) + Tally(Admitted(limit, window, calls, n - 1))
  }

  /** Calls of a key admitted among the first `n` at times in `[from, from + window)`. */
  function AdmittedBetween(limit: int, window: int, calls: seq<Call>, n: nat, key: Text, from: int): nat
    requires n <= |calls|
  {
    if n == 0 then 0
    else
      AdmittedBetween(limit, window, calls, n - 1, key, from)
      + Tally(calls[n - 1].key == key && Admitted(limit, window, calls, n - 1) && from <= calls[n - 1].now < from + window)
  }

  /** The number of calls a window can admit: the limit, but never less than the one that opens it. */
  function WindowQuota(limit: int): int { if limit < 1 then 1 else limit }

  function Min(a: int, b: int): int { if a <= b then a else b }

  /** Each window admits exactly the first `limit` of its calls (and its first call in any case). */
  lemma {:induction false} WindowAdmitsItsQuota(limit: int, window: int, calls: seq<Call>, n: nat, key: Text)
    requires n <= |calls|
    ensures var counts := Run(limit, window, calls, n);
            AdmittedInWindow(limit, window, calls, n, key) ==
              if key in counts then Min(counts[key].count, WindowQuota(limit)) else 0
    ensures key in Run(limit, window, calls, n) ==> Run(limit, window, calls, n)[key].count >= 1
    ensures AdmittedInWindow(limit, window, calls, n, key) <= WindowQuota(limit)
  {
    if n > 0 { WindowAdmitsItsQuota(limit, window, calls, n - 1, key); }
  }

  /** What is known about a half-open interval, by where the key's current window starts. */
  ghost predicate IntervalBound(limit: int, window: int, entry: Option<Entry>, admitted: nat, from: int) {
    var quota := WindowQuota(limit);
    match entry
    case None => admitted == 0
    case Some(Entry(start, count)) =>
      && count >= 1
      && (start < from ==> admitted <= Min(count, quota) - 1)
      && (from <= start < from + window ==> admitted <= quota - 1 + Min(count, quota))
      && admitted <= 2 * quota - 1
  }

  function EntryOf(counts: Counts, key: Text): Option<Entry> { if key in counts then Some(counts[key]) else None }

  lemma IntervalStep(limit: int, window: int, entry: Option<Entry>, admitted: nat, from: int, now: int)
    requires IntervalBound(limit, window, entry, admitted, from)
    requires admitted > 0 ==> from <= now
    requires entry.Some? ==> entry.value.windowStart <= now
    ensures var opens := entry.None? || now - entry.value.windowStart >= window;
            var next := if opens then Entry(now, 1) else Entry(entry.value.windowStart, entry.value.count + 1);
            var allowed := opens || next.count <= limit;
            IntervalBound(limit, window, Some(next), admitted + Tally(allowed && from <= now < from + window), from)
  {
  }

  lemma {:induction false} IntervalInvariant(limit: int, window: int, calls: seq<Call>, n: nat, key: Text, from: int)
    requires ClockMonotone(calls) && n <= |calls|
    ensures var entry := EntryOf(Run(limit, window, calls, n), key);
            var admitted := AdmittedBetween(limit, window, calls, n, key, from);
            && IntervalBound(limit, window, entry, admitted, from)
            && (entry.Some? ==> n > 0 && entry.value.windowStart <= calls[n - 1].now)
            && (admitted > 0 ==> n > 0 && from <= calls[n - 1].now)
  {
    if n > 0 {
      IntervalInvariant(limit, window, calls, n - 1, key, from);
      if n > 1 { assert calls[n - 2].now <= calls[n - 1].now; }
      var entry := EntryOf(Run(limit, window, calls, n - 1), key);
      var admitted := AdmittedBetween(limit, window, calls, n - 1, key, from);
      IntervalStep(limit, window, entry, admitted, from, calls[n - 1].now);
    }
  }

  /**
   On every call sequence with a nondecreasing clock, a key is admitted fewer than twice the limit in
   any half-open interval of one window length: the call that opened the earlier window is outside it.
   */
  lemma SlidingIntervalBound(limit: int, window: int, calls: seq<Call>, key: Text, from: int)
    requires ClockMonotone(calls)
    ensures AdmittedBetween(limit, window, calls, |calls|, key, from) <= 2 * WindowQuota(limit) - 1
    ensures limit >= 1 ==> AdmittedBetween(limit, window, calls, |calls|, key, from) <= 2 * limit - 1
  {
    IntervalInvariant(limit, window, calls, |calls|, key, from);
  }

  /** One call opens a window, the rest of its quota comes at its very end, a second quota right after. */
  function Burst(limit: nat, window: int, key: Text): seq<Call> {
    seq(2 * limit, i => Call(key, if i == 0 then 0 else if i < limit then window - 1 else window))
  }

  lemma {:induction false} BurstIsAdmitted(limit: nat, window: int, key: Text, n: nat)
    requires limit >= 1 && window >= 2 && 1 <= n <= 2 * limit
    ensures EntryOf(Run(limit, window, Burst(limit, window, key), n), key)
         == Some(if n <= limit then Entry(0, n) else Entry(window, n - limit))
    ensures AdmittedBetween(limit, window, Burst(limit, window, key), n, key, 1) == n - 1
  {
    if n > 1 { BurstIsAdmitted(limit, window, key, n - 1); }
  }

  /** The bound is reached for every limit and every window of two ticks or more. */
  lemma SlidingBoundIsTight(limit: nat, window: int, key: Text)
    requires limit >= 1 && window >= 2
    ensures var calls := Burst(limit, window, key);
            ClockMonotone(calls) && AdmittedBetween(limit, window, calls, |calls|, key, 1) == 2 * limit - 1
  {
    BurstIsAdmitted(limit, window, key, 2 * limit);
  }
}
