/** The guest-reset budget of bin/rshyve/src/reboot.rs, threaded through a chain of re-execs. */
module Reboot {
  import opened Prelude

  const RESET_WINDOW_MS: int := 60_000
  const RESET_MAX_PER_WINDOW: int := 10

  /** The two environment variables one process leaves the next. */
  datatype Env = Env(start: Option<int>, count: int)
  {
    predicate Ok() { 0 <= count <= U32_MAX && (start.Some? ==> 0 <= start.value <= U64_MAX) }
  }

  const FRESH: Env := Env(None, 0)

  /** Whether a reset at `now` still counts against the window that starts at `start`. */
  predicate InWindow(now: int, start: Option<int>)
  {
    start.Some? && (if now < start.value then 0 else now - start.value) <= RESET_WINDOW_MS
  }

  /** `reset_budget`: the environment to carry on, or none when the budget is spent. */
  function ResetBudget(now: int, e: Env): (next: Option<Env>)
  {
    var (start, prev) := if InWindow(now, e.start) then (e.start.value, e.count) else (now, 0);
    var count := if prev + 1 > U32_MAX then U32_MAX else prev + 1;
    if count <= RESET_MAX_PER_WINDOW then Some(Env(Some(start), count)) else None
  }

  /** A clock that runs backwards never opens a new window. */
  lemma BackwardsKeepsWindow(now: int, e: Env)
    requires e.Ok() && e.start.Some? && now < e.start.value
    ensures ResetBudget(now, e).Some? <==> e.count < RESET_MAX_PER_WINDOW
    ensures ResetBudget(now, e).Some? ==> ResetBudget(now, e).value == Env(e.start, e.count + 1)
  {
  }

  // ----- chains of re-execs

  /** Reset `n` was accepted at `times[n]` and turned one environment into the next. */
  predicate Accepted(envs: seq<Env>, times: seq<int>, n: nat)
    requires |envs| == |times| + 1 && n < |times|
  {
    ResetBudget(times[n], envs[n]) == Some(envs[n + 1])
  }

  /**
   * A chain of accepted resets, under any clock. A refused reset ends the
   * process, so it can only come after the last one.
   */
  ghost predicate Chain(envs: seq<Env>, times: seq<int>)
  {
    && |envs| == |times| + 1
    && envs[0].Ok()
    && (forall n :: 0 <= n < |times| ==> 0 <= times[n] <= U64_MAX)
    && (forall n :: 0 <= n < |times| ==> Accepted(envs, times, n))
  }

  /** The clock never runs backwards. */
  ghost predicate Forward(times: seq<int>)
  {
    forall i, j :: 0 <= i < j < |times| ==> times[i] <= times[j]
  }

  /** What holds of an environment a reset handed on. */
  predicate Handed(w: Env, now: int)
  {
    && w.Ok() && w.start.Some? && 1 <= w.count <= RESET_MAX_PER_WINDOW
    && now <= w.start.value + RESET_WINDOW_MS
  }

  lemma HandedOn(now: int, e: Env)
    requires e.Ok() && 0 <= now <= U64_MAX && ResetBudget(now, e).Some?
    ensures Handed(ResetBudget(now, e).value, now)
  {
  }

  /** The environment reset `n` hands on names its window and its number in it. */
  lemma {:induction false} WindowShape(envs: seq<Env>, times: seq<int>, n: nat)
    requires Chain(envs, times) && n < |times|
    ensures Handed(envs[n + 1], times[n])
  {
    if n > 0 { WindowShape(envs, times, n - 1); }
    assert Accepted(envs, times, n);
    HandedOn(times[n], envs[n]);
  }

  /** A reset either joins the window of the one before it or opens one after that window's end. */
  predicate Joins(w: Env, w': Env) { w' == Env(w.start, w.count + 1) }

  predicate Opens(w: Env, w': Env, now: int)
  {
    w.start.Some? && w' == Env(Some(now), 1) && now > w.start.value + RESET_WINDOW_MS
  }

  lemma NextWindow(envs: seq<Env>, times: seq<int>, n: nat)
    requires Chain(envs, times) && n + 1 < |times|
    ensures Joins(envs[n + 1], envs[n + 2]) || Opens(envs[n + 1], envs[n + 2], times[n + 1])
  {
    WindowShape(envs, times, n);
    assert Accepted(envs, times, n + 1);
  }

  /** Resets `i` and `j` count against one window. */
  ghost predicate OneWindow(envs: seq<Env>, i: nat, j: nat)
    requires i <= j && j + 1 < |envs|
  {
    envs[i + 1].start == envs[j + 1].start
  }

  /** Window starts never fall, whatever the clock does, and within a window every reset is counted. */
  lemma {:induction false} WindowOrder(envs: seq<Env>, times: seq<int>, i: nat, j: nat)
    requires Chain(envs, times) && i <= j < |times|
    ensures envs[i + 1].start.Some? && envs[j + 1].start.Some?
    ensures envs[i + 1].start.value <= envs[j + 1].start.value
    ensures OneWindow(envs, i, j) ==> envs[j + 1].count == envs[i + 1].count + j - i
    decreases j
  {
    WindowShape(envs, times, i);
    if i < j {
      WindowOrder(envs, times, i, j - 1);
      NextWindow(envs, times, j - 1);
    }
  }

  /** Under any clock a window holds at most ten resets. */
  lemma WindowCap(envs: seq<Env>, times: seq<int>, i: nat, j: nat)
    requires Chain(envs, times) && i <= j < |times| && envs[i + 1].start == envs[j + 1].start
    ensures j - i + 1 <= RESET_MAX_PER_WINDOW + 1 - envs[i + 1].count <= RESET_MAX_PER_WINDOW
  {
    WindowShape(envs, times, i);
    WindowShape(envs, times, j);
    WindowOrder(envs, times, i, j);
  }

  /** The first reset after `i`, up to `j`, that opens a new window; `j + 1` when none does. */
  lemma {:induction false} FirstOpening(envs: seq<Env>, times: seq<int>, i: nat, j: nat) returns (k: nat)
    requires Chain(envs, times) && i <= j < |times|
    ensures i < k <= j + 1 && OneWindow(envs, i, k - 1)
    ensures k <= j ==> Opens(envs[i + 1], envs[k + 1], times[k])
    decreases j
  {
    if i == j {
      k := j + 1;
    } else {
      k := FirstOpening(envs, times, i, j - 1);
      if k == j {
        NextWindow(envs, times, j - 1);
        if Joins(envs[j], envs[j + 1]) {
          k := j + 1;
        }
      }
    }
  }

  /** An opening reset is followed by no other opening within its window's length. */
  lemma OneOpening(envs: seq<Env>, times: seq<int>, k: nat, j: nat)
    requires Chain(envs, times) && Forward(times) && k <= j < |times|
    requires envs[k + 1].start == Some(times[k]) && times[j] <= times[k] + RESET_WINDOW_MS
    ensures OneWindow(envs, k, j)
  {
    var m := FirstOpening(envs, times, k, j);
  }

  /** The resets `i..=j` of a chain that fall within one minute of a forward clock: at most twenty. */
  lemma MinuteBound(envs: seq<Env>, times: seq<int>, i: nat, j: nat)
    requires Chain(envs, times) && Forward(times) && i <= j < |times| && times[j] - times[i] <= RESET_WINDOW_MS
    ensures j - i + 1 <= 2 * RESET_MAX_PER_WINDOW + 1 - envs[i + 1].count <= 2 * RESET_MAX_PER_WINDOW
    ensures envs[i + 1].start == Some(times[i]) ==> j - i + 1 <= RESET_MAX_PER_WINDOW
  {
    var k := FirstOpening(envs, times, i, j);
    WindowCap(envs, times, i, k - 1);
    if envs[i + 1].start == Some(times[i]) {
      OneOpening(envs, times, i, j);
      WindowCap(envs, times, i, j);
    } else if k <= j {
      assert times[i] <= times[k];
      OneOpening(envs, times, k, j);
      WindowCap(envs, times, k, j);
    }
  }

  /** In a chain that starts fresh, the first reset of a window sits at the window's start. */
  lemma FirstAtStart(envs: seq<Env>, times: seq<int>, n: nat)
    requires Chain(envs, times) && envs[0] == FRESH && n < |times| && envs[n + 1].count == 1
    ensures envs[n + 1].start == Some(times[n])
  {
    if n == 0 {
      assert Accepted(envs, times, 0);
    } else {
      NextWindow(envs, times, n - 1);
      WindowShape(envs, times, n - 1);
    }
  }

  /** A fresh chain gets at most nineteen resets in any minute: one fewer than two full windows. */
  lemma FreshMinuteBound(envs: seq<Env>, times: seq<int>, i: nat, j: nat)
    requires Chain(envs, times) && Forward(times) && envs[0] == FRESH
    requires i <= j < |times| && times[j] - times[i] <= RESET_WINDOW_MS
    ensures j - i + 1 <= 2 * RESET_MAX_PER_WINDOW - 1
  {
    MinuteBound(envs, times, i, j);
    WindowShape(envs, times, i);
    if envs[i + 1].count == 1 {
      FirstAtStart(envs, times, i);
    }
  }

  // ----- both bounds are reached

  /** Ten resets at the last instant of a window, ten just after it. */
  function BurstTimes(first: int): seq<int>
  {
    seq(20, i => if i == 0 then first else if i < 10 then 60_000 else 60_001)
  }

  function BurstEnvs(e: Env): seq<Env>
  {
    seq(21, n => if n == 0 then e else if n <= 10 then Env(Some(0), n) else Env(Some(60_001), n - 10))
  }

  /** A fresh chain can have nineteen resets in two milliseconds. */
  lemma NineteenReached()
    ensures Chain(BurstEnvs(FRESH), BurstTimes(0)) && Forward(BurstTimes(0))
    ensures BurstTimes(0)[19] - BurstTimes(0)[1] <= RESET_WINDOW_MS
  {
  }

  /** With a window inherited from the environment the twenty are reached. */
  lemma TwentyReached()
    ensures Chain(BurstEnvs(Env(Some(0), 0)), BurstTimes(60_000)) && Forward(BurstTimes(60_000))
    ensures BurstTimes(60_000)[19] - BurstTimes(60_000)[0] <= RESET_WINDOW_MS
  {
  }
}
