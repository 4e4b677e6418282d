/** The token bucket of crates/vmm-core/src/ratelimit.rs. Times and periods are nanoseconds. */
module RateLimit {
  import opened Prelude

  /** What a bucket admits: `burst` at once, then one per `period`. */
  datatype Config = Config(burst: nat, period: nat, created: int)
  {
    predicate Ok() { burst <= U32_MAX }
  }

  datatype State = State(tokens: nat, refilled: int)

  function Min(a: int, b: int): int { if a < b then a else b }

  /** Whole periods since the last refill; zero for a clock behind it or a zero period. */
  function Earned(c: Config, s: State, now: int): nat
  {
    if c.period == 0 || now <= s.refilled then 0 else (now - s.refilled) / c.period
  }

  /** The periods one call credits: the code clamps them to 32 bits. */
  function Credit(c: Config, s: State, now: int): nat { Min(Earned(c, s, now), U32_MAX) }

  /** `take_at`: the new state and whether the event is admitted. */
  function Take(c: Config, s: State, now: int): (State, bool)
  {
    var credit := Credit(c, s, now);
    var tokens := if credit > 0 then Min(Min(s.tokens + credit, U32_MAX), c.burst) else s.tokens;
    var refilled := s.refilled + c.period * credit;
    if tokens == 0 then (State(0, refilled), false) else (State(tokens - 1, refilled), true)
  }

  // ----- call sequences

  function After(c: Config, times: seq<int>, n: nat): State
    requires n <= |times|
  {
    if n == 0 then State(c.burst, c.created) else Take(c, After(c, times, n - 1), times[n - 1]).0
  }

  /** Events admitted among calls `i..j`. */
  function Admitted(c: Config, times: seq<int>, i: nat, j: nat): nat
    requires i <= j <= |times|
  {
    if i == j then 0
    else Admitted(c, times, i, j - 1) + if Take(c, After(c, times, j - 1), times[j - 1]).1 then 1 else 0
  }

  /** Periods credited by calls `i..j`. */
  function Credits(c: Config, times: seq<int>, i: nat, j: nat): nat
    requires i <= j <= |times|
  {
    if i == j then 0
    else Credits(c, times, i, j - 1) + Credit(c, After(c, times, j - 1), times[j - 1])
  }

  function Latest(c: Config, times: seq<int>, n: nat): int
    requires n <= |times|
  {
    if n == 0 then c.created
    else if times[n - 1] > Latest(c, times, n - 1) then times[n - 1] else Latest(c, times, n - 1)
  }

  lemma DivideBound(k: nat, p: nat, x: int)
    requires 0 < p && k * p <= x
    ensures k <= x / p
  {
    if x / p < k {
      assert (x / p + 1) * p <= k * p by { MulMono(x / p + 1, k, p); }
    }
  }

  lemma MulMono(a: int, b: int, p: nat)
    requires a <= b
    ensures a * p <= b * p
  {
  }

  lemma {:induction false} TokensBounded(c: Config, times: seq<int>, n: nat)
    requires c.Ok() && n <= |times|
    ensures After(c, times, n).tokens <= c.burst
  {
    if n > 0 { TokensBounded(c, times, n - 1); }
  }

  /** What is admitted and what is left never exceeds what there was and what was credited. */
  lemma {:induction false} Conserved(c: Config, times: seq<int>, i: nat, j: nat)
    requires i <= j <= |times|
    ensures Admitted(c, times, i, j) + After(c, times, j).tokens
            <= After(c, times, i).tokens + Credits(c, times, i, j)
  {
    if i < j { Conserved(c, times, i, j - 1); }
  }

  /** The refill mark moves by whole credited periods, so remainders are kept. */
  lemma {:induction false} MarkMoves(c: Config, times: seq<int>, i: nat, j: nat)
    requires i <= j <= |times|
    ensures After(c, times, j).refilled == After(c, times, i).refilled + c.period * Credits(c, times, i, j)
  {
    if i < j {
      MarkMoves(c, times, i, j - 1);
      var s := After(c, times, j - 1);
      MarkStep(c, s, times[j - 1], After(c, times, i).refilled, Credits(c, times, i, j - 1));
    }
  }

  lemma MarkStep(c: Config, s: State, now: int, from: int, k: nat)
    requires s.refilled == from + c.period * k
    ensures Take(c, s, now).0.refilled == from + c.period * (k + Credit(c, s, now))
  {
    Distribute(c.period, k, Credit(c, s, now));
  }

  lemma Distribute(p: int, a: int, b: int)
    ensures p * (a + b) == p * a + p * b
  {
  }

  /** A call never moves the mark past its own clock. */
  lemma MarkStaysBehind(c: Config, s: State, now: int)
    ensures Take(c, s, now).0.refilled <= if now > s.refilled then now else s.refilled
    ensures Take(c, s, now).0.refilled >= s.refilled
  {
    if c.period > 0 && now > s.refilled {
      var e := (now - s.refilled) / c.period;
      MulMono(Credit(c, s, now), e, c.period);
      assert e * c.period <= now - s.refilled;
    }
  }

  lemma {:induction false} MarkBounded(c: Config, times: seq<int>, n: nat)
    requires n <= |times|
    ensures c.created <= After(c, times, n).refilled <= Latest(c, times, n)
  {
    if n > 0 {
      MarkBounded(c, times, n - 1);
      MarkStaysBehind(c, After(c, times, n - 1), times[n - 1]);
    }
  }

  /** Over every call sequence, in any clock order: at most the burst and one per elapsed period. */
  lemma TotalBound(c: Config, times: seq<int>)
    requires c.Ok()
    ensures c.period == 0 ==> Admitted(c, times, 0, |times|) <= c.burst
    ensures c.period > 0 ==>
              Admitted(c, times, 0, |times|) <= c.burst + (Latest(c, times, |times|) - c.created) / c.period
  {
    var n := |times|;
    Conserved(c, times, 0, n);
    if c.period == 0 {
      NoCredits(c, times, n);
    } else {
      MarkMoves(c, times, 0, n);
      MarkBounded(c, times, n);
      DivideBound(Credits(c, times, 0, n), c.period, Latest(c, times, n) - c.created);
    }
  }

  lemma {:induction false} NoCredits(c: Config, times: seq<int>, n: nat)
    requires c.period == 0 && n <= |times|
    ensures Credits(c, times, 0, n) == 0
  {
    if n > 0 { NoCredits(c, times, n - 1); }
  }

  // ----- windows

  ghost predicate Forward(c: Config, times: seq<int>)
  {
    && (|times| > 0 ==> c.created <= times[0])
    && forall i, j :: 0 <= i < j < |times| ==> times[i] <= times[j]
  }

  /** The first call comes at most `g` after the bucket was made, and each next one at most `g` later. */
  ghost predicate Gaps(c: Config, times: seq<int>, g: nat)
  {
    && (|times| > 0 ==> times[0] - c.created <= g)
    && forall n :: 0 < n < |times| ==> times[n] - times[n - 1] <= g
  }

  function CeilDiv(x: int, p: nat): int
    requires p > 0
  {
    (x + p - 1) / p
  }

  /** Any calls `i..=j` admit at most the burst and one per period, or part of one, they span. */
  ghost predicate WindowLaw(c: Config, times: seq<int>)
    requires c.period > 0
  {
    forall i, j :: 0 <= i <= j < |times| ==> WindowAt(c, times, i, j)
  }

  ghost predicate WindowAt(c: Config, times: seq<int>, i: nat, j: nat)
    requires c.period > 0 && i <= j < |times|
  {
    Admitted(c, times, i, j + 1) <= c.burst + CeilDiv(times[j] - times[i], c.period)
  }

  lemma {:induction false} LatestIsLast(c: Config, times: seq<int>, n: nat)
    requires Forward(c, times) && 0 < n <= |times|
    ensures Latest(c, times, n) == times[n - 1]
  {
    if n > 1 { LatestIsLast(c, times, n - 1); }
  }

  /** An unclamped call leaves less than one period uncredited. */
  lemma Unclamped(c: Config, s: State, now: int)
    requires c.period > 0 && s.refilled <= now && Earned(c, s, now) <= U32_MAX
    ensures now - Take(c, s, now).0.refilled < c.period
  {
    if s.refilled < now {
      var x := now - s.refilled;
      assert x == x / c.period * c.period + x % c.period;
    }
  }

  lemma MarkNear(c: Config, times: seq<int>, i: nat)
    requires c.period > 0 && Forward(c, times) && i < |times|
    requires Earned(c, After(c, times, i), times[i]) <= U32_MAX
    ensures times[i] - After(c, times, i + 1).refilled < c.period
  {
    MarkBounded(c, times, i);
    if i > 0 { LatestIsLast(c, times, i); }
    Unclamped(c, After(c, times, i), times[i]);
  }

  lemma MarkLast(c: Config, times: seq<int>, j: nat)
    requires Forward(c, times) && j < |times|
    ensures After(c, times, j + 1).refilled <= times[j]
  {
    MarkBounded(c, times, j + 1);
    LatestIsLast(c, times, j + 1);
  }

  lemma CreditedBy(c: Config, times: seq<int>, i: nat, j: nat)
    requires Forward(c, times) && i <= j < |times|
    ensures After(c, times, i + 1).refilled + c.period * Credits(c, times, i + 1, j + 1) <= times[j]
  {
    MarkLast(c, times, j);
    MarkMoves(c, times, i + 1, j + 1);
  }

  lemma WindowCredits(c: Config, times: seq<int>, i: nat, j: nat)
    requires c.period > 0 && Forward(c, times) && i <= j < |times|
    requires times[i] - After(c, times, i + 1).refilled < c.period
    ensures Credits(c, times, i + 1, j + 1) <= CeilDiv(times[j] - times[i], c.period)
  {
    CreditedBy(c, times, i, j);
    WindowArith(c.period, times[i], times[j], After(c, times, i + 1).refilled, Credits(c, times, i + 1, j + 1));
  }

  lemma WindowArith(p: nat, ti: int, tj: int, mark: int, credits: nat)
    requires p > 0 && ti - mark < p && mark + p * credits <= tj
    ensures credits <= CeilDiv(tj - ti, p)
  {
    DivideBound(credits, p, tj - ti + p - 1);
  }

  /** What calls `i..=j` admit is bounded by the burst and what the calls after `i` credit. */
  lemma AdmittedBound(c: Config, times: seq<int>, i: nat, j: nat)
    requires c.Ok() && i <= j < |times|
    ensures Admitted(c, times, i, j + 1) <= c.burst + Credits(c, times, i + 1, j + 1)
  {
    SplitAdmitted(c, times, i, i + 1, j + 1);
    Conserved(c, times, i + 1, j + 1);
    FirstCall(c, times, i);
  }

  lemma WindowBound(c: Config, times: seq<int>, i: nat, j: nat)
    requires c.Ok() && c.period > 0 && Forward(c, times) && i <= j < |times|
    requires Earned(c, After(c, times, i), times[i]) <= U32_MAX
    ensures Admitted(c, times, i, j + 1) <= c.burst + CeilDiv(times[j] - times[i], c.period)
  {
    AdmittedBound(c, times, i, j);
    MarkNear(c, times, i);
    WindowCredits(c, times, i, j);
  }

  /** The first call of a window and what it leaves together fit the burst. */
  lemma FirstCall(c: Config, times: seq<int>, i: nat)
    requires c.Ok() && i < |times|
    ensures Admitted(c, times, i, i + 1) + After(c, times, i + 1).tokens <= c.burst
  {
    TokensBounded(c, times, i);
    assert Admitted(c, times, i, i) == 0;
  }

  lemma {:induction false} SplitAdmitted(c: Config, times: seq<int>, i: nat, m: nat, j: nat)
    requires i <= m <= j <= |times|
    ensures Admitted(c, times, i, j) == Admitted(c, times, i, m) + Admitted(c, times, m, j)
  {
    if m < j { SplitAdmitted(c, times, i, m, j - 1); }
  }

  // ----- the clamp

  lemma QuotientBelow(x: nat, p: nat, k: nat)
    requires p > 0 && x < (k + 1) * p
    ensures x / p <= k
  {
    assert x == x / p * p + x % p;
    if x / p > k {
      MulMono(k + 1, x / p, p);
    }
  }

  /** Calls close enough together never meet the clamp. */
  lemma {:induction false} GapsEarn(c: Config, times: seq<int>, g: nat, n: nat)
    requires c.period > 0 && Forward(c, times) && Gaps(c, times, g) && g <= U32_MAX * c.period && n < |times|
    ensures Earned(c, After(c, times, n), times[n]) <= U32_MAX
  {
    var mark := After(c, times, n).refilled;
    if n > 0 {
      GapsEarn(c, times, g, n - 1);
      MarkNear(c, times, n - 1);
      assert times[n] - times[n - 1] <= g;
    }
    assert times[n] - mark < c.period + g <= (U32_MAX + 1) * c.period;
    if mark < times[n] {
      QuotientBelow(times[n] - mark, c.period, U32_MAX);
    }
  }

  /** One call just before the first period is up, then more than the burst at once, 2^32 periods in. */
  function IdleRun(c: Config): (times: seq<int>)
    ensures |times| == c.burst + 2
    ensures times[0] == c.created + c.period - 1
    ensures forall n :: 1 <= n < |times| ==> times[n] == ClampTime(c)
  {
    [c.created + c.period - 1] + seq(c.burst + 1, _ => ClampTime(c))
  }

  function ClampTime(c: Config): int { c.created + (U32_MAX + 1) * c.period }

  /** What the run leaves: the second call credits one period too few, and the third call the rest. */
  function IdleState(c: Config, n: nat): State
    requires 1 <= n <= c.burst + 2 && c.burst > 0
  {
    if n == 1 then State(c.burst - 1, c.created)
    else if n == 2 then State(c.burst - 1, ClampTime(c) - c.period)
    else State(c.burst + 2 - n, ClampTime(c))
  }

  lemma IdleStep(c: Config, n: nat)
    requires c.Ok() && c.burst > 0 && c.period > 0 && 2 <= n <= c.burst + 2
    ensures Take(c, IdleState(c, n - 1), ClampTime(c)) == (IdleState(c, n), true)
  {
    if n == 2 {
      DivideExact(U32_MAX + 1, c.period);
      assert ClampTime(c) - c.created == (U32_MAX + 1) * c.period;
      assert c.period * U32_MAX == (U32_MAX + 1) * c.period - c.period;
    } else if n == 3 {
      DivideExact(1, c.period);
    }
  }

  lemma {:induction false} IdleAdmits(c: Config, n: nat)
    requires c.Ok() && c.burst > 0 && c.period > 0 && 1 <= n <= c.burst + 2
    ensures After(c, IdleRun(c), n) == IdleState(c, n) && Admitted(c, IdleRun(c), 1, n) == n - 1
  {
    if n == 1 {
      assert After(c, IdleRun(c), 0) == State(c.burst, c.created);
      QuotientBelow(c.period - 1, c.period, 0);
    } else {
      IdleAdmits(c, n - 1);
      IdleStep(c, n);
    }
  }

  lemma DivideExact(k: nat, p: nat)
    requires p > 0
    ensures (k * p) / p == k
  {
    DivideBound(k, p, k * p);
    if k < (k * p) / p {
      MulMono(k + 1, (k * p) / p, p);
    }
  }

  /** The failing run: gaps one nanosecond over the limit, and one more than the burst admitted at an instant. */
  lemma ClampBreaksWindow(c: Config)
    requires c.Ok() && c.burst > 0 && c.period > 0
    ensures Forward(c, IdleRun(c)) && Gaps(c, IdleRun(c), U32_MAX * c.period + 1) && !WindowLaw(c, IdleRun(c))
  {
    var times := IdleRun(c);
    assert (U32_MAX + 1) * c.period == U32_MAX * c.period + c.period;
    IdleAdmits(c, c.burst + 2);
    OverBurst(c, times, 1);
  }

  lemma CeilZero(p: nat)
    requires p > 0
    ensures CeilDiv(0, p) == 0
  {
  }

  /** More than the burst admitted at one instant breaks the law. */
  lemma OverBurst(c: Config, times: seq<int>, i: nat)
    requires c.period > 0 && i < |times| && times[|times| - 1] == times[i]
    requires Admitted(c, times, i, |times|) > c.burst
    ensures !WindowLaw(c, times)
  {
    CeilZero(c.period);
    assert !WindowAt(c, times, i, |times| - 1);
  }

  /** A bucket without tokens admits nothing. */
  lemma {:induction false} NothingAdmitted(c: Config, times: seq<int>, i: nat, j: nat)
    requires c.Ok() && c.burst == 0 && i <= j <= |times|
    ensures Admitted(c, times, i, j) == 0
  {
    if i < j {
      NothingAdmitted(c, times, i, j - 1);
      TokensBounded(c, times, j - 1);
    }
  }

  /** Close calls keep the law. */
  lemma GapsKeepWindow(c: Config, times: seq<int>, g: nat, i: nat, j: nat)
    requires c.Ok() && c.period > 0 && Forward(c, times) && Gaps(c, times, g) && i <= j < |times|
    requires c.burst == 0 || g <= U32_MAX * c.period
    ensures WindowAt(c, times, i, j)
  {
    if c.burst == 0 {
      NothingAdmitted(c, times, i, j + 1);
      DivideBound(0, c.period, times[j] - times[i] + c.period - 1);
    } else {
      GapsEarn(c, times, g, i);
      WindowBound(c, times, i, j);
    }
  }

  /** The law holds of all runs with gaps up to `g` exactly when that many nanoseconds are 2^32 - 1 periods or fewer. */
  lemma WindowLawExactly(c: Config, g: nat)
    requires c.Ok() && c.period > 0
    ensures (forall times :: Forward(c, times) && Gaps(c, times, g) ==> WindowLaw(c, times))
            <==> c.burst == 0 || g <= U32_MAX * c.period
  {
    if c.burst == 0 || g <= U32_MAX * c.period {
      forall times, i, j | Forward(c, times) && Gaps(c, times, g) && 0 <= i <= j < |times|
        ensures WindowAt(c, times, i, j)
      {
        GapsKeepWindow(c, times, g, i, j);
      }
    } else {
      ClampBreaksWindow(c);
      assert Gaps(c, IdleRun(c), g);
    }
  }

  /** The bucket object. */
  class TokenBucket {
    const config: Config
    var tokens: nat
    var refilled: int

    constructor (burst: nat, period: nat, now: int)
      requires burst <= U32_MAX
      ensures config == Config(burst, period, now) && State(tokens, refilled) == After(config, [], 0)
    {
      config, tokens, refilled := Config(burst, period, now), burst, now;
    }

    /** The object moves as `Take`, of which the bounds above hold. */
    method TakeAt(now: int) returns (ok: bool)
      requires config.Ok()
      modifies this`tokens, this`refilled
      ensures (State(tokens, refilled), ok) == Take(config, old(State(tokens, refilled)), now)
    {
      if config.period != 0 {
        var elapsed := if now > refilled then now - refilled else 0;
        var earned := elapsed / config.period;
        if earned > 0 {
          var credit := if earned <= U32_MAX then earned else U32_MAX;
          tokens := Min(Min(tokens + credit, U32_MAX), config.burst);
          refilled := refilled + config.period * credit;
        }
      }
      if tokens == 0 {
        return false;
      }
      tokens := tokens - 1;
      return true;
    }
  }
}
