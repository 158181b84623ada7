/** The sender's retry loop: exponential backoff with jitter under a total time budget. */
module Retry {
  import opened JsonValue

  datatype Policy = Policy(initial: real, max: real, budget: real, jitter: real)

  /** How one attempt ends; a wire error is a decisive answer and is not retried. */
  datatype Attempt = Delivered | WireError | TransportError

  /**
   Everything the loop reads from outside, by attempt: how it ends and how long it takes, the jitter
   drawn after it, and how much longer than asked the sleep after it lasts.
   */
  datatype World = World(outcome: nat -> Attempt, duration: nat -> real, draw: nat -> real, oversleep: nat -> real)

  /** `uniform(-jitter, jitter)` draws from the same interval whichever sign the jitter has. */
  function Spread(p: Policy): real { if p.jitter >= 0.0 then p.jitter else -p.jitter }

  /** Attempts take time, sleeps last at least as long as asked, draws stay within the jitter. */
  ghost predicate Possible(p: Policy, w: World) {
    forall n: nat :: w.duration(n) >= 0.0 && w.oversleep(n) >= 0.0 && -Spread(p) <= w.draw(n) <= Spread(p)
  }

  /** Time since the start, the delay to use next, and the total sleep asked for so far. */
  datatype Loop = Loop(elapsed: real, delay: real, slept: real)

  function Min(a: real, b: real): real { if a <= b then a else b }
  function Max(a: real, b: real): real { if a >= b then a else b }

  function Wait(p: Policy, delay: real, draw: real, elapsed: real): real {
    Min(Max(delay * (1.0 + draw), 0.0), Max(0.0, p.budget - elapsed))
  }

  /** The loop after one more turn; `None` when that turn returns or raises. */
  function Turn(p: Policy, w: World, n: nat, s: Loop): Option<Loop> {
    var elapsed := s.elapsed + w.duration(n);
    if !w.outcome(n).TransportError? || elapsed >= p.budget then None
    else
      var wait := Wait(p, s.delay, w.draw(n), elapsed);
      Some(Loop(elapsed + wait + w.oversleep(n), Min(s.delay * 2.0, p.max), s.slept + wait))
  }

  /** The loop after `n` turns, `None` once it has ended. */
  function After(p: Policy, w: World, n: nat): Option<Loop> {
    if n == 0 then Some(Loop(0.0, p.initial, 0.0))
    else
      match After(p, w, n - 1)
      case None => None
      case Some(s) => Turn(p, w, n - 1, s)
  }

  /** The shortest sleep the policy can ask for while the budget does not cut it short. */
  function ShortestSleep(p: Policy): real { Share(Spread(p), Min(p.initial, p.max)) }

  function Share(jitter: real, delay: real): real { (1.0 - jitter) * delay }

  predicate Sensible(p: Policy) { p.initial > 0.0 && p.max > 0.0 && Spread(p) < 1.0 }

  // ----------------------------------------------------------- invariants

  /** What holds between turns whatever the policy: sleep asked for exceeds neither time passed nor the budget. */
  ghost predicate WithinBudget(p: Policy, s: Loop) {
    0.0 <= s.slept <= s.elapsed && s.slept <= Max(p.budget, 0.0)
  }

  lemma {:induction false} SleepStaysWithinBudget(p: Policy, w: World, n: nat)
    requires Possible(p, w) && After(p, w, n).Some?
    ensures WithinBudget(p, After(p, w, n).value)
  {
    if n > 0 { SleepStaysWithinBudget(p, w, n - 1); }
  }

  /** What a sensible policy adds: every sleep that is not the last has at least the shortest length. */
  ghost predicate Inv(p: Policy, n: nat, s: Loop) {
    && s.delay >= Min(p.initial, p.max)
    && WithinBudget(p, s)
    && (s.elapsed < p.budget ==> s.slept >= n as real * ShortestSleep(p))
    && (n >= 1 ==> (n - 1) as real * ShortestSleep(p) < p.budget)
  }

  lemma WaitBounds(p: Policy, delay: real, draw: real, elapsed: real)
    requires Sensible(p) && delay >= Min(p.initial, p.max) && -Spread(p) <= draw <= Spread(p) && elapsed < p.budget
    ensures var wait := Wait(p, delay, draw, elapsed);
            0.0 <= wait <= p.budget - elapsed && (wait < p.budget - elapsed ==> wait >= ShortestSleep(p))
  {
    Scaled(delay, Min(p.initial, p.max), 1.0 + draw, 1.0 - Spread(p));
  }

  lemma ProductNotNegative(a: real, b: real)
    requires a >= 0.0 && b >= 0.0
    ensures a * b >= 0.0
  {
  }

  lemma ScaleMonotone(a: real, b: real, c: real)
    requires a >= b && c >= 0.0
    ensures a * c >= b * c
  {
    ProductNotNegative(a - b, c);
    assert (a - b) * c == a * c - b * c;
  }

  lemma Scaled(a: real, b: real, x: real, y: real)
    requires a >= b > 0.0 && x >= y > 0.0
    ensures a * x >= y * b > 0.0
  {
    ScaleMonotone(a, b, x);
    ScaleMonotone(x, y, b);
    ProductPositive(y, b);
  }

  lemma ShortestSleepPositive(p: Policy)
    requires Sensible(p)
    ensures ShortestSleep(p) > 0.0
  {
    PositiveShare(Spread(p), Min(p.initial, p.max));
  }

  lemma PositiveShare(j: real, m: real)
    requires 0.0 <= j < 1.0 && m > 0.0
    ensures Share(j, m) > 0.0
  {
    ProductPositive(1.0 - j, m);
  }

  lemma ProductPositive(a: real, b: real)
    requires a > 0.0 && b > 0.0
    ensures a * b > 0.0
  {
  }

  lemma TurnKeepsInv(p: Policy, w: World, n: nat, s: Loop)
    requires Sensible(p) && Possible(p, w) && Inv(p, n, s) && Turn(p, w, n, s).Some?
    ensures Inv(p, n + 1, Turn(p, w, n, s).value)
  {
    var elapsed := s.elapsed + w.duration(n);
    WaitBounds(p, s.delay, w.draw(n), elapsed);
    var step := ShortestSleep(p);
    assert (n + 1) as real * step == n as real * step + step;
  }

  lemma {:induction false} RunningKeepsInv(p: Policy, w: World, n: nat)
    requires Sensible(p) && Possible(p, w) && After(p, w, n).Some?
    ensures Inv(p, n, After(p, w, n).value)
  {
    if n > 0 {
      RunningKeepsInv(p, w, n - 1);
      TurnKeepsInv(p, w, n - 1, After(p, w, n - 1).value);
    }
  }

  // ------------------------------------------------------------- theorems

  /** The whole number of sleeps of length `step` that fit into `budget`. */
  function Fitting(budget: real, step: real): (k: int)
    requires step > 0.0
  {
    (budget / step).Floor
  }

  lemma FittingIsLargest(budget: real, step: real, k: int)
    requires step > 0.0 && k as real * step < budget
    ensures k <= Fitting(budget, step)
  {
    var q := budget / step;
    assert q * step == budget;
    if k as real >= q { ScaleMonotone(k as real, q, step); }
  }

  /** The attempt the loop cannot get past: budget / shortest sleep, plus two; one when there is no budget. */
  function AttemptBound(p: Policy): nat
    requires Sensible(p)
  {
    ShortestSleepPositive(p);
    var k := Fitting(p.budget, ShortestSleep(p));
    if p.budget <= 0.0 || k < 0 then 1 else k + 2
  }

  lemma BelowBound(p: Policy, n: nat)
    requires Sensible(p) && (n >= 1 ==> (n - 1) as real * ShortestSleep(p) < p.budget)
    ensures n < AttemptBound(p)
  {
    ShortestSleepPositive(p);
    if n >= 1 {
      ProductNotNegative((n - 1) as real, ShortestSleep(p));
      FittingIsLargest(p.budget, ShortestSleep(p), n - 1);
    }
  }

  /** A sensible policy ends within the bound in every possible world, never asking for more sleep than its budget. */
  lemma LoopEnds(p: Policy, w: World, n: nat)
    requires Sensible(p) && Possible(p, w)
    ensures After(p, w, AttemptBound(p)).None?
    ensures After(p, w, n).Some? ==> n < AttemptBound(p) && After(p, w, n).value.slept <= Max(p.budget, 0.0)
  {
    if After(p, w, AttemptBound(p)).Some? {
      RunningKeepsInv(p, w, AttemptBound(p));
      BelowBound(p, AttemptBound(p));
    }
    if After(p, w, n).Some? {
      RunningKeepsInv(p, w, n);
      BelowBound(p, n);
    }
  }

  ghost predicate Ends(p: Policy, w: World) { exists n: nat :: After(p, w, n).None? }

  lemma {:induction false} EndedStaysEnded(p: Policy, w: World, m: nat, n: nat)
    requires After(p, w, m).None? && m <= n
    ensures After(p, w, n).None?
  {
    if m < n { EndedStaysEnded(p, w, m, n - 1); }
  }

  /** The policies whose loop is sure to end; with a cap of zero or less only the first sleep can use the budget up. */
  predicate SureToEnd(p: Policy) {
    || p.budget <= 0.0
    || (Spread(p) < 1.0 && p.initial > 0.0 && (p.max > 0.0 || Share(Spread(p), p.initial) >= p.budget))
  }

  lemma SureEnds(p: Policy, w: World)
    requires SureToEnd(p) && Possible(p, w)
    ensures Ends(p, w)
  {
    if p.budget <= 0.0 {
      assert After(p, w, 0).value.elapsed + w.duration(0) >= p.budget;
      assert After(p, w, 1).None?;
    } else if p.max > 0.0 {
      LoopEnds(p, w, 0);
      assert After(p, w, AttemptBound(p)).None?;
    } else {
      FirstSleepEndsIt(p, w);
      assert After(p, w, 2).None?;
    }
  }

  lemma FirstSleepEndsIt(p: Policy, w: World)
    requires Possible(p, w) && p.initial > 0.0 && Spread(p) < 1.0 && Share(Spread(p), p.initial) >= p.budget
    ensures After(p, w, 2).None?
  {
    assert After(p, w, 1) == Turn(p, w, 0, Loop(0.0, p.initial, 0.0));
    Scaled(p.initial, p.initial, 1.0 + w.draw(0), 1.0 - Spread(p));
    assert After(p, w, 1).Some? ==> After(p, w, 1).value.elapsed >= p.budget;
  }

  function SlowestDraw(p: Policy): real { Min(Spread(p), 1.0) }

  /** Nothing but transport errors, no time passing but in sleeps, and the jitter always cutting them shortest. */
  function StuckWorld(p: Policy): World { World(_ => TransportError, _ => 0.0, _ => -SlowestDraw(p), _ => 0.0) }

  /** No sleep will ever be asked for again, or only a first one that leaves some of the budget. */
  ghost predicate Stalled(p: Policy, n: nat, s: Loop) {
    && s.elapsed < p.budget
    && (|| SlowestDraw(p) == 1.0 || s.delay <= 0.0
        || (n == 0 && s == Loop(0.0, p.initial, 0.0) && p.max <= 0.0 && Share(Spread(p), p.initial) < p.budget))
  }

  lemma StallContinues(p: Policy, n: nat, s: Loop)
    requires Stalled(p, n, s)
    ensures Turn(p, StuckWorld(p), n, s).Some? && Stalled(p, n + 1, Turn(p, StuckWorld(p), n, s).value)
  {
    var factor := 1.0 - SlowestDraw(p);
    if SlowestDraw(p) < 1.0 && s.delay <= 0.0 {
      ProductNotNegative(-s.delay, factor);
      assert (-s.delay) * factor == -(s.delay * factor);
    } else if SlowestDraw(p) < 1.0 {
      assert s.delay * factor == Share(Spread(p), p.initial);
    }
  }

  lemma {:induction false} StuckForever(p: Policy, n: nat)
    requires !SureToEnd(p)
    ensures After(p, StuckWorld(p), n).Some? && Stalled(p, n, After(p, StuckWorld(p), n).value)
  {
    if n > 0 {
      StuckForever(p, n - 1);
      StallContinues(p, n - 1, After(p, StuckWorld(p), n - 1).value);
    }
  }

  /** For every policy whatever: the loop ends in all possible worlds exactly when the policy is sure to end. */
  lemma EndsIffSure(p: Policy)
    ensures (forall w: World :: Possible(p, w) ==> Ends(p, w)) <==> SureToEnd(p)
  {
    if SureToEnd(p) {
      forall w: World | Possible(p, w) ensures Ends(p, w) { SureEnds(p, w); }
    } else {
      assert Possible(p, StuckWorld(p));
      forall n: nat ensures After(p, StuckWorld(p), n).Some? { StuckForever(p, n); }
      assert !Ends(p, StuckWorld(p));
    }
  }

  // ------------------------------------------------- delays and sleeps asked

  function Doubled(x: real, n: nat): real { if n == 0 then x else 2.0 * Doubled(x, n - 1) }

  lemma {:induction false} DoubledFromCap(max: real, n: nat)
    ensures max >= 0.0 ==> Doubled(max, n) >= max
    ensures max <= 0.0 ==> Doubled(max, n) <= max
  {
    if n > 0 { DoubledFromCap(max, n - 1); }
  }

  /** The delay after n turns is the initial delay doubled n times, capped each time. */
  lemma {:induction false} DelayDoubles(p: Policy, w: World, n: nat)
    requires After(p, w, n).Some?
    ensures var delay := After(p, w, n).value.delay;
            if n == 0 then delay == p.initial
            else delay == Min(Doubled(p.initial, n), Min(p.max, Doubled(p.max, n - 1)))
  {
    if n > 0 {
      DelayDoubles(p, w, n - 1);
      DelayStep(p, w, n - 1, After(p, w, n - 1).value);
      if n > 1 { DoubledFromCap(p.max, n - 2); }
    }
  }

  lemma DelayStep(p: Policy, w: World, n: nat, s: Loop)
    requires After(p, w, n) == Some(s) && After(p, w, n + 1).Some?
    ensures After(p, w, n + 1).value.delay == Min(2.0 * s.delay, p.max)
  {
    NextTurn(p, w, n, s);
    assert s.delay * 2.0 == 2.0 * s.delay;
  }

  /** With a cap that is not negative: the smaller of the cap and the initial delay doubled n times. */
  lemma CappedDelay(p: Policy, w: World, n: nat)
    requires After(p, w, n).Some? && n >= 1 && p.max >= 0.0
    ensures After(p, w, n).value.delay == Min(Doubled(p.initial, n), p.max)
  {
    DelayDoubles(p, w, n);
    DoubledFromCap(p.max, n - 1);
  }

  /** Each sleep asked for is the delay times one plus the draw, not below zero and not beyond the budget. */
  lemma SleepAsked(p: Policy, w: World, n: nat, s: Loop, s': Loop)
    requires After(p, w, n) == Some(s) && After(p, w, n + 1) == Some(s')
    ensures w.outcome(n).TransportError? && s.elapsed + w.duration(n) < p.budget
    ensures s'.slept == s.slept + Asked(p, w, n, s)
    ensures s'.elapsed == s.elapsed + w.duration(n) + Asked(p, w, n, s) + w.oversleep(n)
  {
    NextTurn(p, w, n, s);
    TurnIs(p, w, n, s, s');
  }

  function Asked(p: Policy, w: World, n: nat, s: Loop): real {
    Clamped(s.delay * (1.0 + w.draw(n)), p.budget - (s.elapsed + w.duration(n)))
  }

  lemma TurnIs(p: Policy, w: World, n: nat, s: Loop, s': Loop)
    requires Turn(p, w, n, s) == Some(s')
    ensures w.outcome(n).TransportError? && s.elapsed + w.duration(n) < p.budget
    ensures s'.slept == s.slept + Asked(p, w, n, s)
    ensures s'.elapsed == s.elapsed + w.duration(n) + Asked(p, w, n, s) + w.oversleep(n)
  {
    WaitIsClamped(p, s.delay, w.draw(n), s.elapsed + w.duration(n));
  }

  function Clamped(x: real, most: real): real { if x <= 0.0 then 0.0 else if x <= most then x else most }

  lemma WaitIsClamped(p: Policy, delay: real, draw: real, elapsed: real)
    requires elapsed < p.budget
    ensures Wait(p, delay, draw, elapsed) == Clamped(delay * (1.0 + draw), p.budget - elapsed)
  {
    var x := delay * (1.0 + draw);
    assert Wait(p, delay, draw, elapsed) == Min(Max(x, 0.0), Max(0.0, p.budget - elapsed));
  }

  // ------------------------------------------------------------- the loop

  datatype Ending = Sent | Rejected | Exhausted

  /**
   `send_with_retries`; `attempts` counts the messages built, `slept` the sleep asked for.  It returns
   whenever the loop ends at all, and for a sensible policy within its bound.
   */
  method SendWithRetries(p: Policy, w: World) returns (ending: Ending, attempts: nat, slept: real)
    requires Ends(p, w)
    ensures attempts >= 1 && After(p, w, attempts).None?
    ensures After(p, w, attempts - 1).Some? && After(p, w, attempts - 1).value.slept == slept
    ensures ending == Sent <==> w.outcome(attempts - 1).Delivered?
    ensures ending == Rejected <==> w.outcome(attempts - 1).WireError?
    ensures Possible(p, w) ==> slept <= Max(p.budget, 0.0)
    ensures Possible(p, w) && Sensible(p) ==> attempts <= AttemptBound(p)
  {
    var s := Loop(0.0, p.initial, 0.0);
    attempts := 0;
    ghost var end: nat :| After(p, w, end).None?;
    while true
      invariant After(p, w, attempts) == Some(s) && attempts < end
      decreases end - attempts
    {
      var n := attempts;
      attempts := attempts + 1;
      var outcome := w.outcome(n);
      var elapsed := s.elapsed + w.duration(n);
      NextTurn(p, w, n, s);
      EndedHere(p, w, attempts);
      if outcome.Delivered? { return Sent, attempts, s.slept; }
      if outcome.WireError? { return Rejected, attempts, s.slept; }
      if elapsed >= p.budget { return Exhausted, attempts, s.slept; }
      var wait := Wait(p, s.delay, w.draw(n), elapsed);
      s := Loop(elapsed + wait + w.oversleep(n), Min(s.delay * 2.0, p.max), s.slept + wait);
      StillRunning(p, w, attempts, end);
    }
  }

  lemma NextTurn(p: Policy, w: World, n: nat, s: Loop)
    requires After(p, w, n) == Some(s)
    ensures After(p, w, n + 1) == Turn(p, w, n, s)
  {
  }

  lemma StillRunning(p: Policy, w: World, n: nat, end: nat)
    requires After(p, w, n).Some? && After(p, w, end).None?
    ensures n < end
  {
    if end <= n { EndedStaysEnded(p, w, end, n); }
  }

  lemma EndedHere(p: Policy, w: World, attempts: nat)
    requires attempts >= 1 && After(p, w, attempts - 1).Some?
    ensures Possible(p, w) ==> After(p, w, attempts - 1).value.slept <= Max(p.budget, 0.0)
    ensures Possible(p, w) && Sensible(p) ==> attempts <= AttemptBound(p)
  {
    if Possible(p, w) { SleepStaysWithinBudget(p, w, attempts - 1); }
    if Possible(p, w) && Sensible(p) { LoopEnds(p, w, attempts - 1); }
  }
}
