/** The control-event limiter: a virtual-time cursor per policy, advanced by compare-and-swap from
    any number of CPUs. Each load and each swap is one step. Callers that a coalescing hint turns
    away never start, so every behaviour of the hint cache, evictions included, is a run here. */
module ControlBudget {
  import opened Outcomes

  const MIN_INTERVAL: nat := 10_000_000
  const MAX_INTERVAL: nat := 10_000_000_000
  const MAX_BURST: nat := 4096
  const CAS_ATTEMPTS: nat := 4
  const U64_MAX: nat := 0xFFFF_FFFF_FFFF_FFFF

  datatype Policy = Policy(interval: nat, burst: nat)

  predicate Usable(p: Policy) { MIN_INTERVAL <= p.interval <= MAX_INTERVAL && 0 < p.burst <= MAX_BURST }

  function Window(p: Policy): nat { p.interval * p.burst }

  // A call may proceed: usable policy, and now + window fits in 64 bits.
  predicate MayTry(p: Policy, now: nat) { Usable(p) && now + Window(p) <= U64_MAX }

  /** What one round wants to write over the cursor it loaded, if it does not give up. */
  function Candidate(p: Policy, now: nat, seen: nat): Option<nat> {
    if seen == 0 then Some(now + p.interval)
    else
      var base := if seen > now then seen else now;
      if base > U64_MAX - p.interval then None
      else if base + p.interval > now + Window(p) then None
      else Some(base + p.interval)
  }

  datatype Caller = Looping(now: nat, attempt: nat) | Loaded(now: nat, attempt: nat, seen: nat) | Done(admitted: bool)

  /** `log` records the clock readings of the admitted calls in the order of their swaps. */
  datatype State = State(cursor: nat, callers: map<nat, Caller>, log: seq<nat>)

  datatype Step = Arrive(id: nat, now: nat) | Load(id: nat) | Swap(id: nat)

  function Fresh(): State { State(0, map[], []) }

  function Put(s: State, id: nat, c: Caller): State { s.(callers := s.callers[id := c]) }

  function Apply(p: Policy, s: State, step: Step): State {
    match step
    case Arrive(id, now) =>
      if id in s.callers then s else Put(s, id, if MayTry(p, now) then Looping(now, 0) else Done(false))
    case Load(id) =>
      if id in s.callers && s.callers[id].Looping? then
        Put(s, id, Loaded(s.callers[id].now, s.callers[id].attempt, s.cursor))
      else s
    case Swap(id) => if id in s.callers && s.callers[id].Loaded? then Swapped(p, s, id, s.callers[id]) else s
  }

  function Swapped(p: Policy, s: State, id: nat, c: Caller): State
    requires c.Loaded?
  {
    var wanted := Candidate(p, c.now, c.seen);
    if wanted.None? then Put(s, id, Done(false))
    else if s.cursor == c.seen then Put(s, id, Done(true)).(cursor := wanted.value, log := s.log + [c.now])
    else if c.attempt + 1 < CAS_ATTEMPTS then Put(s, id, Looping(c.now, c.attempt + 1))
    else Put(s, id, Done(false))
  }

  function Run(p: Policy, s: State, steps: seq<Step>): State
    decreases |steps|
  {
    if steps == [] then s else Run(p, Apply(p, s, steps[0]), steps[1..])
  }

  // ----- Reference: the cursor a log of admissions must have produced -----

  function Cursor(p: Policy, log: seq<nat>): nat {
    if log == [] then 0
    else
      var before, t := Cursor(p, log[..|log| - 1]), log[|log| - 1];
      (if before > t then before else t) + p.interval
  }

  // Every admission stayed inside its own window, and inside 64 bits.
  ghost predicate Within(p: Policy, log: seq<nat>) {
    forall k :: 0 <= k < |log| ==> Cursor(p, log[..k + 1]) <= log[k] + Window(p) <= U64_MAX
  }

  ghost predicate Inv(p: Policy, s: State) {
    && s.cursor == Cursor(p, s.log) && Within(p, s.log)
    && (s.log != [] ==> Usable(p))
    && (forall id :: id in s.callers && !s.callers[id].Done? ==> MayTry(p, s.callers[id].now))
  }

  lemma CursorPositive(p: Policy, log: seq<nat>)
    requires Usable(p)
    ensures Cursor(p, log) == 0 <==> log == []
  {}

  lemma SwapKeepsInv(p: Policy, s: State, id: nat, c: Caller)
    requires Inv(p, s) && id in s.callers && s.callers[id] == c && c.Loaded?
    ensures Inv(p, Swapped(p, s, id, c))
  {
    var t := Swapped(p, s, id, c);
    if t.log != s.log {
      assert t.log[..|t.log| - 1] == s.log;
      CursorPositive(p, s.log);
      WindowCovers(p);
      forall k | 0 <= k < |t.log| ensures Cursor(p, t.log[..k + 1]) <= t.log[k] + Window(p) <= U64_MAX {
        if k < |s.log| { assert t.log[..k + 1] == s.log[..k + 1]; } else { assert t.log[..k + 1] == t.log; }
      }
    }
  }

  lemma WindowCovers(p: Policy)
    requires Usable(p)
    ensures p.interval <= Window(p)
  {
    Grows(p.interval, p.burst - 1);
  }

  lemma {:induction false} Grows(a: nat, b: nat)
    ensures a <= a * (b + 1)
  {
    if b > 0 {
      Grows(a, b - 1);
      assert a * (b + 1) == a * (b - 1 + 1) + a;
    }
  }

  lemma {:induction false} RunKeepsInv(p: Policy, s: State, steps: seq<Step>)
    requires Inv(p, s)
    ensures Inv(p, Run(p, s, steps))
    decreases |steps|
  {
    if steps != [] {
      match steps[0] {
        case Swap(id) =>
          if id in s.callers && s.callers[id].Loaded? { SwapKeepsInv(p, s, id, s.callers[id]); }
        case _ =>
      }
      RunKeepsInv(p, Apply(p, s, steps[0]), steps[1..]);
    }
  }

  // ----- Theorems -----

  // The cursor moves at least one interval per admission and never lags an admission's clock.
  lemma {:induction false} CursorAdvances(p: Policy, log: seq<nat>, i: nat, j: nat)
    requires i <= j < |log|
    ensures Cursor(p, log[..j + 1]) >= log[i] + (j - i + 1) * p.interval
    decreases j
  {
    assert log[..j + 1][..j] == log[..j];
    if i < j {
      CursorAdvances(p, log, i, j - 1);
      assert (j - i + 1) * p.interval == (j - 1 - i + 1) * p.interval + p.interval;
    }
  }

  /** The rate bound: however the calls interleave, any stretch of n successive admissions, from
      clock t1 to clock tn, satisfies t1 + n * interval <= burst * interval + tn. The clocks of
      different CPUs need not be ordered. */
  lemma RateBound(p: Policy, steps: seq<Step>, i: nat, j: nat)
    requires i <= j < |Run(p, Fresh(), steps).log|
    ensures var log := Run(p, Fresh(), steps).log;
      log[i] + (j - i + 1) * p.interval <= p.burst * p.interval + log[j]
  {
    RunKeepsInv(p, Fresh(), steps);
    var log := Run(p, Fresh(), steps).log;
    CursorAdvances(p, log, i, j);
    assert Cursor(p, log[..j + 1]) <= log[j] + Window(p);
  }

  /** No 64-bit overflow: the cursor is exact, and so is everything computed from it. */
  lemma NoOverflow(p: Policy, steps: seq<Step>, id: nat)
    ensures var s := Run(p, Fresh(), steps);
      && s.cursor <= U64_MAX
      && (id in s.callers && s.callers[id].Loaded? && Candidate(p, s.callers[id].now, s.callers[id].seen).Some? ==>
            Candidate(p, s.callers[id].now, s.callers[id].seen).value <= s.callers[id].now + Window(p) <= U64_MAX)
  {
    RunKeepsInv(p, Fresh(), steps);
    var s := Run(p, Fresh(), steps);
    if s.log != [] {
      assert s.log[..|s.log| - 1 + 1] == s.log;
      assert Cursor(p, s.log[..|s.log| - 1 + 1]) <= s.log[|s.log| - 1] + Window(p);
    }
    if id in s.callers && s.callers[id].Loaded? { WindowCovers(p); }
  }

  // ----- Uncontended calls -----

  // One call that meets no contention.
  function OneCall(p: Policy, s: State, id: nat, now: nat): State {
    Apply(p, Apply(p, Apply(p, s, Arrive(id, now)), Load(id)), Swap(id))
  }

  function Calls(p: Policy, now: nat, n: nat): State {
    if n == 0 then Fresh() else OneCall(p, Calls(p, now, n - 1), n - 1, now)
  }

  lemma CallDecides(p: Policy, s: State, id: nat, now: nat)
    requires id !in s.callers && MayTry(p, now)
    ensures var t, wanted := OneCall(p, s, id, now), Candidate(p, now, s.cursor);
      && t.callers == s.callers[id := Done(wanted.Some?)]
      && t.log == (if wanted.Some? then s.log + [now] else s.log)
      && t.cursor == (if wanted.Some? then wanted.value else s.cursor)
  {
    var a := Put(s, id, Looping(now, 0));
    assert Apply(p, s, Arrive(id, now)) == a;
    var b := Put(a, id, Loaded(now, 0, s.cursor));
    assert Apply(p, a, Load(id)) == b;
    assert b.callers == s.callers[id := Loaded(now, 0, s.cursor)];
  }

  lemma MulOrder(a: nat, b: nat, c: nat)
    requires b < c
    ensures a * b + a <= a * c
  {
    assert a * c == a * b + a * (c - b);
    Grows(a, c - b - 1);
  }

  function CursorAfter(p: Policy, now: nat, k: nat): nat { if k == 0 then 0 else now + p.interval * k }

  // At one instant the cursor is k intervals ahead, and there is room for one more until k is the burst.
  lemma CandidateAt(p: Policy, now: nat, k: nat)
    requires MayTry(p, now) && k <= p.burst
    ensures Candidate(p, now, CursorAfter(p, now, k)) == if k < p.burst then Some(CursorAfter(p, now, k + 1)) else None
  {
    if k < p.burst { MulOrder(p.interval, k, p.burst); }
    if k > 0 { Grows(p.interval, k - 1); }
    assert p.interval * (k + 1) == p.interval * k + p.interval;
  }

  // The state after n uncontended calls at one instant, k of them admitted.
  ghost predicate Burst(p: Policy, s: State, now: nat, n: nat, k: nat) {
    && |s.log| == k && s.cursor == CursorAfter(p, now, k)
    && (forall id :: id in s.callers <==> 0 <= id < n)
    && (forall id :: 0 <= id < n ==> s.callers[id] == Done(id < p.burst))
  }

  function Admitted(p: Policy, n: nat): nat { if n < p.burst then n else p.burst }

  lemma BurstStep(p: Policy, s: State, now: nat, n: nat)
    requires MayTry(p, now) && Burst(p, s, now, n, Admitted(p, n))
    ensures Burst(p, OneCall(p, s, n, now), now, n + 1, Admitted(p, n + 1))
  {
    CandidateAt(p, now, Admitted(p, n));
    CallDecides(p, s, n, now);
    var t := OneCall(p, s, n, now);
    assert t.callers == s.callers[n := Done(n < p.burst)];
    assert t.cursor == CursorAfter(p, now, Admitted(p, n + 1));
  }

  /** A fresh cursor admits exactly the configured burst at one instant: of n uncontended calls the
      first min(n, burst) are admitted and every later one is refused. */
  lemma {:induction false} ExactBurst(p: Policy, now: nat, n: nat)
    requires MayTry(p, now)
    ensures Burst(p, Calls(p, now, n), now, n, if n < p.burst then n else p.burst)
  {
    if n > 0 {
      ExactBurst(p, now, n - 1);
      BurstStep(p, Calls(p, now, n - 1), now, n - 1);
    }
  }
}
