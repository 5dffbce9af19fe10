/** Retrying with exponential backoff: `calculate-delay` and `with-occ-retry` of src/chrondb/concurrency/occ.clj.

    The retried function acts on a state `S`, which may also change between its calls; random draws are given.
    Delays are exact real numbers until they are truncated to milliseconds.
 */
module Retry {
  import opened Wrappers

  datatype Config = Config(
    maxRetries: int, initialDelay: real, maxDelay: real, multiplier: real, jitter: real,
    onConflict: bool, onRetry: bool)  // whether the callbacks are given

  /** What one call of the function did; `Falsy` is a nil or false result. */
  datatype Attempt<V, E, X> = Success(value: V) | Falsy | Conflict(conflict: E) | Throws(exception: X)

  datatype Act<E> = OnConflict(seen: Option<E>) | OnRetry(attempt: nat, cause: Option<E>) | Sleep(millis: int)

  /** `ThrownNil` is the error raised by throwing the conflict of an attempt that had none. */
  datatype Result<V, E, X> = Returned(value: V) | Thrown(exception: X) | ThrownConflict(conflict: E) | ThrownNil

  // ---------- delays ----------

  /** Multiplication by name, so that proofs can treat a product as one term. */
  function Times(a: real, b: real): real {
    a * b
  }

  function Pow(m: real, n: nat): real {
    if n == 0 then 1.0 else m * Pow(m, n - 1)
  }

  /** `long` truncates toward zero. */
  function Truncate(x: real): int {
    if x >= 0.0 then x.Floor else -((-x).Floor)
  }

  function Min(a: real, b: real): real {
    if a < b then a else b
  }

  function CappedDelay(attempt: nat, c: Config): real
    requires attempt >= 1
  {
    Min(Times(c.initialDelay, Pow(c.multiplier, attempt - 1)), c.maxDelay)
  }

  function CalculateDelay(attempt: nat, c: Config, draw: real): int
    requires attempt >= 1
  {
    Truncate(Jittered(CappedDelay(attempt, c), c.jitter, draw))
  }

  function Jittered(capped: real, jitter: real, draw: real): real {
    capped + capped * jitter * (2.0 * draw - 1.0)
  }

  // ---------- the loop ----------

  function Cause<V, E, X>(a: Attempt<V, E, X>): Option<E> {
    if a.Conflict? then Some(a.conflict) else None
  }

  /** What happens between two attempts, in order. */
  function Between<E>(c: Config, attempt: nat, cause: Option<E>, draw: real): seq<Act<E>>
    requires attempt >= 1
  {
    (if c.onConflict then [OnConflict(cause)] else []) +
    (if c.onRetry then [OnRetry(attempt, cause)] else []) +
    [Sleep(CalculateDelay(attempt, c, draw))]
  }

  predicate Settles<V, E, X>(a: Attempt<V, E, X>) {
    a.Success? || a.Throws?
  }

  /** The number of attempts allowed. */
  function Allowed(c: Config): nat {
    if c.maxRetries < 1 then 1 else c.maxRetries
  }

  /** The state before the k-th attempt, if all earlier ones were made. */
  function Before<S, V, E, X>(f: (S, nat) -> (S, Attempt<V, E, X>), s: S, attempt: nat): S
    requires attempt >= 1
  {
    if attempt == 1 then s else f(Before(f, s, attempt - 1), attempt - 1).0
  }

  function Outcome<S, V, E, X>(f: (S, nat) -> (S, Attempt<V, E, X>), s: S, attempt: nat): Attempt<V, E, X>
    requires attempt >= 1
  {
    f(Before(f, s, attempt), attempt).1
  }

  /** All that is done between the first `calls` attempts. */
  function Acts<S, V, E, X>(f: (S, nat) -> (S, Attempt<V, E, X>), s: S, c: Config, draws: nat -> real, calls: nat)
    : seq<Act<E>>
    requires calls >= 1
  {
    if calls == 1 then []
    else Acts(f, s, c, draws, calls - 1) +
         Between(c, calls - 1, Cause(Outcome(f, s, calls - 1)), draws(calls - 1))
  }

  /** The first attempt that settles the matter, or the last one allowed. */
  ghost predicate StopsAfter<S, V, E, X>(f: (S, nat) -> (S, Attempt<V, E, X>), s: S, c: Config, calls: nat) {
    && 1 <= calls <= Allowed(c)
    && (forall k :: 1 <= k < calls ==> !Settles(Outcome(f, s, k)))
    && (calls < Allowed(c) ==> Settles(Outcome(f, s, calls)))
  }

  /** So the outcomes of the attempts fix how many calls are made. */
  lemma {:induction false} StopsOnce<S, V, E, X>(f: (S, nat) -> (S, Attempt<V, E, X>), s: S, c: Config, calls: nat,
                                                 calls': nat)
    requires StopsAfter(f, s, c, calls) && StopsAfter(f, s, c, calls')
    ensures calls == calls'
  {
  }

  function FinalResult<V, E, X>(last: Attempt<V, E, X>): Result<V, E, X> {
    match last
    case Success(v) => Returned(v)
    case Throws(x) => Thrown(x)
    case Conflict(e) => ThrownConflict(e)
    case Falsy => ThrownNil
  }

  // ---------- how long it sleeps ----------

  ghost predicate Reasonable(c: Config) {
    c.initialDelay >= 0.0 && c.maxDelay >= 0.0 && c.multiplier > 1.0 && 0.0 <= c.jitter <= 1.0
  }

  lemma {:induction false} PowPositive(m: real, n: nat)
    requires m > 1.0
    ensures Pow(m, n) >= 1.0
  {
    if n > 0 {
      PowPositive(m, n - 1);
      assert m * Pow(m, n - 1) >= Pow(m, n - 1);
    }
  }

  lemma {:induction false} Scale(a: real, b: real, k: real)
    requires a <= b && k >= 0.0
    ensures a * k <= b * k && k * a <= k * b
  {
  }

  lemma {:induction false} TimesAdds(k: real, a: real, b: real)
    ensures Times(k, a) + Times(k, b) == Times(k, a + b)
    ensures Times(a, k) + Times(b, k) == Times(a + b, k)
    ensures Times(1.0, k) == k
  {
  }

  /** (1 + jitter) times x */
  function WithJitter(jitter: real, x: real): real {
    Times(1.0 + jitter, x)
  }

  lemma {:induction false} WithJitterGrows(jitter: real, a: real, b: real)
    requires jitter >= 0.0 && a <= b
    ensures WithJitter(jitter, a) <= WithJitter(jitter, b)
  {
  }

  lemma {:induction false} WithJitterAdds(jitter: real, a: real, b: real)
    ensures WithJitter(jitter, a) + WithJitter(jitter, b) == WithJitter(jitter, a + b)
  {
  }

  lemma {:induction false} SwingBounds(spread: real, swing: real)
    requires 0.0 <= spread && -1.0 <= swing <= 1.0
    ensures -spread <= Times(spread, swing) <= spread
  {
  }

  lemma {:induction false} SpreadBounds(capped: real, jitter: real)
    requires capped >= 0.0 && 0.0 <= jitter <= 1.0
    ensures 0.0 <= Times(capped, jitter) <= capped
    ensures WithJitter(jitter, capped) == capped + Times(capped, jitter)
    ensures WithJitter(-jitter, capped) == capped - Times(capped, jitter)
  {
  }

  lemma {:induction false} JitteredAsTimes(capped: real, jitter: real, draw: real)
    ensures Jittered(capped, jitter, draw) == capped + Times(Times(capped, jitter), 2.0 * draw - 1.0)
  {
  }

  lemma {:induction false} JitterBounds(capped: real, jitter: real, draw: real)
    requires capped >= 0.0 && 0.0 <= jitter <= 1.0 && 0.0 <= draw <= 1.0
    ensures 0.0 <= WithJitter(-jitter, capped) <= Jittered(capped, jitter, draw) <= WithJitter(jitter, capped)
  {
    SpreadBounds(capped, jitter);
    JitteredAsTimes(capped, jitter, draw);
    SwingBounds(Times(capped, jitter), 2.0 * draw - 1.0);
  }

  lemma {:induction false} FloorBounds(x: real)
    requires x >= 0.0
    ensures 0 <= Truncate(x) && x - 1.0 < Truncate(x) as real <= x
  {
  }

  /** Each sleep is at least 0, and between (1 - jitter) and (1 + jitter) times the capped delay of its attempt, but for
      the fraction of a millisecond cut off. */
  lemma {:induction false} DelayBounds(attempt: nat, c: Config, draw: real)
    requires attempt >= 1 && Reasonable(c) && 0.0 <= draw <= 1.0
    ensures 0.0 <= CappedDelay(attempt, c) <= c.maxDelay
    ensures 0 <= CalculateDelay(attempt, c, draw)
    ensures CalculateDelay(attempt, c, draw) as real > WithJitter(-c.jitter, CappedDelay(attempt, c)) - 1.0
    ensures CalculateDelay(attempt, c, draw) as real <= WithJitter(c.jitter, CappedDelay(attempt, c))
    ensures CalculateDelay(attempt, c, draw) as real <= WithJitter(c.jitter, c.maxDelay)
  {
    PowPositive(c.multiplier, attempt - 1);
    Scale(0.0, Pow(c.multiplier, attempt - 1), c.initialDelay);
    JitterBounds(CappedDelay(attempt, c), c.jitter, draw);
    FloorBounds(Jittered(CappedDelay(attempt, c), c.jitter, draw));
    WithJitterGrows(c.jitter, CappedDelay(attempt, c), c.maxDelay);
  }

  function TotalSleep<E>(acts: seq<Act<E>>): int {
    if acts == [] then 0
    else TotalSleep(acts[..|acts| - 1]) + var last := acts[|acts| - 1]; if last.Sleep? then last.millis else 0
  }

  lemma {:induction false} SleepBetween<E>(acts: seq<Act<E>>, c: Config, attempt: nat, cause: Option<E>, draw: real)
    requires attempt >= 1
    ensures TotalSleep(acts + Between(c, attempt, cause, draw)) == TotalSleep(acts) + CalculateDelay(attempt, c, draw)
  {
    var first := if c.onConflict then [OnConflict(cause)] else [];
    var second := if c.onRetry then [OnRetry(attempt, cause)] else [];
    var last := [Sleep(CalculateDelay(attempt, c, draw))];
    SleepOfQuiet(acts, first);
    SleepOfQuiet(acts + first, second);
    assert (acts + first + second + last)[..|acts + first + second|] == acts + first + second;
    assert acts + Between(c, attempt, cause, draw) == acts + first + second + last;
  }

  lemma {:induction false} SleepOfQuiet<E>(acts: seq<Act<E>>, quiet: seq<Act<E>>)
    requires |quiet| <= 1 && (|quiet| == 1 ==> !quiet[0].Sleep?)
    ensures TotalSleep(acts + quiet) == TotalSleep(acts)
  {
    if quiet == [] {
      assert acts + quiet == acts;
    } else {
      assert (acts + quiet)[..|acts|] == acts;
    }
  }

  /** One more attempt adds one delay. */
  lemma {:induction false} SleepStep<S, V, E, X>(f: (S, nat) -> (S, Attempt<V, E, X>), s: S, c: Config,
                                                 draws: nat -> real, attempt: nat)
    requires attempt >= 1
    ensures TotalSleep(Acts(f, s, c, draws, attempt + 1))
         == TotalSleep(Acts(f, s, c, draws, attempt)) + CalculateDelay(attempt, c, draws(attempt))
  {
    SleepBetween(Acts(f, s, c, draws, attempt), c, attempt, Cause(Outcome(f, s, attempt)), draws(attempt));
  }

  ghost predicate Fair(draws: nat -> real) {
    forall k :: 0.0 <= draws(k) <= 1.0
  }

  function Sleeps<E>(acts: seq<Act<E>>): seq<int> {
    if acts == [] then []
    else Sleeps(acts[..|acts| - 1]) + if acts[|acts| - 1].Sleep? then [acts[|acts| - 1].millis] else []
  }

  lemma {:induction false} SleepsAppend<E>(acts: seq<Act<E>>, more: seq<Act<E>>)
    ensures Sleeps(acts + more) == Sleeps(acts) + Sleeps(more)
  {
    if more == [] {
      assert acts + more == acts;
    } else {
      var front, last := more[..|more| - 1], more[|more| - 1];
      SleepsAppend(acts, front);
      assert (acts + more)[..|acts + more| - 1] == acts + front;
    }
  }

  lemma {:induction false} SleepsOfOne<E>(act: Act<E>)
    ensures Sleeps([act]) == if act.Sleep? then [act.millis] else []
  {
    assert [act][..0] == [];
  }

  lemma {:induction false} SleepsBetween<E>(c: Config, attempt: nat, cause: Option<E>, draw: real)
    requires attempt >= 1
    ensures Sleeps(Between(c, attempt, cause, draw)) == [CalculateDelay(attempt, c, draw)]
  {
    var first: seq<Act<E>> := if c.onConflict then [OnConflict(cause)] else [];
    var second: seq<Act<E>> := if c.onRetry then [OnRetry(attempt, cause)] else [];
    var last: Act<E> := Sleep(CalculateDelay(attempt, c, draw));
    SleepsOfOne<E>(OnConflict(cause));
    SleepsOfOne<E>(OnRetry(attempt, cause));
    SleepsOfOne(last);
    SleepsAppend(first, second);
    SleepsAppend(first + second, [last]);
  }

  /** A sleep lies, but for the fraction cut off, within the jitter around a delay, and is its floor without jitter. */
  predicate Within(sleep: int, jitter: real, delay: real) {
    && 0 <= sleep
    && (1.0 - jitter) * delay - 1.0 < sleep as real <= (1.0 + jitter) * delay
    && (jitter == 0.0 ==> sleep == delay.Floor)
  }

  /** After the (k+1)-st attempt the delay has grown k times by the multiplier, up to the maximum. */
  predicate InWindow(c: Config, k: nat, sleep: int) {
    var grown := Times(c.initialDelay, Pow(c.multiplier, k));
    Within(sleep, c.jitter, if grown < c.maxDelay then grown else c.maxDelay)
  }

  predicate BackedOff(c: Config, sleeps: seq<int>) {
    forall k :: 0 <= k < |sleeps| ==> InWindow(c, k, sleeps[k])
  }

  lemma {:induction false} WithJitterIs(jitter: real, x: real)
    ensures WithJitter(jitter, x) == (1.0 + jitter) * x && WithJitter(-jitter, x) == (1.0 - jitter) * x
  {
    assert 1.0 + -jitter == 1.0 - jitter;
  }

  lemma {:induction false} NoJitter(delay: real, draw: real)
    ensures Jittered(delay, 0.0, draw) == delay
  {
    JitteredAsTimes(delay, 0.0, draw);
    assert Times(delay, 0.0) == 0.0 && Times(0.0, 2.0 * draw - 1.0) == 0.0;
  }

  lemma {:induction false} TruncatedIsWithin(delay: real, jitter: real, draw: real)
    requires delay >= 0.0 && 0.0 <= jitter <= 1.0 && 0.0 <= draw <= 1.0
    ensures Within(Truncate(Jittered(delay, jitter, draw)), jitter, delay)
  {
    JitterBounds(delay, jitter, draw);
    FloorBounds(Jittered(delay, jitter, draw));
    WithJitterIs(jitter, delay);
    NoJitter(delay, draw);
  }

  lemma {:induction false} TruncateGrows(a: real, b: real)
    requires 0.0 <= a <= b
    ensures Truncate(a) <= Truncate(b)
  {
  }

  lemma {:induction false} DrawsSpread(delay: real, jitter: real, less: real, more: real)
    requires delay >= 0.0 && 0.0 <= jitter <= 1.0 && 0.0 <= less <= more <= 1.0
    ensures Truncate(Jittered(delay, jitter, less)) <= Truncate(Jittered(delay, jitter, more))
    ensures Truncate(Jittered(delay, jitter, 0.5)) == delay.Floor
  {
    SpreadBounds(delay, jitter);
    JitteredAsTimes(delay, jitter, less);
    JitteredAsTimes(delay, jitter, more);
    JitteredAsTimes(delay, jitter, 0.5);
    Scale(2.0 * less - 1.0, 2.0 * more - 1.0, Times(delay, jitter));
    JitterBounds(delay, jitter, less);
    TruncateGrows(Jittered(delay, jitter, less), Jittered(delay, jitter, more));
  }

  lemma {:induction false} CappedIsPositive(attempt: nat, c: Config)
    requires attempt >= 1 && Reasonable(c)
    ensures CappedDelay(attempt, c) >= 0.0
  {
    PowPositive(c.multiplier, attempt - 1);
    Scale(0.0, Pow(c.multiplier, attempt - 1), c.initialDelay);
  }

  lemma {:induction false} DelayIsInWindow(attempt: nat, c: Config, draw: real)
    requires attempt >= 1 && Reasonable(c) && 0.0 <= draw <= 1.0
    ensures InWindow(c, attempt - 1, CalculateDelay(attempt, c, draw))
  {
    CappedIsPositive(attempt, c);
    TruncatedIsWithin(CappedDelay(attempt, c), c.jitter, draw);
  }

  /** A larger draw never gives a shorter sleep, and a draw of one half gives the delay itself, but for its fraction. */
  lemma {:induction false} DrawsDecide(attempt: nat, c: Config, less: real, more: real)
    requires attempt >= 1 && Reasonable(c) && 0.0 <= less <= more <= 1.0
    ensures CalculateDelay(attempt, c, less) <= CalculateDelay(attempt, c, more)
    ensures var grown := Times(c.initialDelay, Pow(c.multiplier, attempt - 1));
            CalculateDelay(attempt, c, 0.5) == (if grown < c.maxDelay then grown else c.maxDelay).Floor
  {
    CappedIsPositive(attempt, c);
    DrawsSpread(CappedDelay(attempt, c), c.jitter, less, more);
  }

  lemma {:induction false} OneMoreSleep(c: Config, sleeps: seq<int>, sleep: int)
    requires BackedOff(c, sleeps) && InWindow(c, |sleeps|, sleep)
    ensures BackedOff(c, sleeps + [sleep])
  {
    forall k | 0 <= k < |sleeps + [sleep]| ensures InWindow(c, k, (sleeps + [sleep])[k]) {
    }
  }

  /** After the k-th attempt the sleep lies, but for the fraction cut off, within the jitter around
      min(initial * multiplier^(k-1), max), and is the floor of that if there is no jitter. */
  lemma {:induction false} SleepsBackOff<S, V, E, X>(f: (S, nat) -> (S, Attempt<V, E, X>), s: S, c: Config,
                                                     draws: nat -> real, calls: nat)
    requires calls >= 1 && Reasonable(c) && Fair(draws)
    ensures |Sleeps(Acts(f, s, c, draws, calls))| == calls - 1 && BackedOff(c, Sleeps(Acts(f, s, c, draws, calls)))
  {
    if calls > 1 {
      var k := calls - 1;
      SleepsBackOff(f, s, c, draws, k);
      var cause := Cause(Outcome(f, s, k));
      SleepsAppend(Acts(f, s, c, draws, k), Between(c, k, cause, draws(k)));
      SleepsBetween(c, k, cause, draws(k));
      DelayIsInWindow(k, c, draws(k));
      OneMoreSleep(c, Sleeps(Acts(f, s, c, draws, k)), CalculateDelay(k, c, draws(k)));
    }
  }

  /** The function is called until it succeeds or throws something other than a conflict, but at most
      max(1, maxRetries) times in all; the last call alone decides the result; between two calls each callback
      runs once, then the thread sleeps. */
  method WithOccRetry<S, V, E, X>(f: (S, nat) -> (S, Attempt<V, E, X>), s: S, c: Config, draws: nat -> real)
    returns (result: Result<V, E, X>, final: S, calls: nat, acts: seq<Act<E>>)
    ensures StopsAfter(f, s, c, calls)
    ensures final == f(Before(f, s, calls), calls).0
    ensures result == FinalResult(Outcome(f, s, calls))
    ensures acts == Acts(f, s, c, draws, calls)
    ensures forall k :: 1 <= k < calls ==> Outcome(f, s, k).Falsy? || Outcome(f, s, k).Conflict?
    ensures 1 <= calls && (calls > 1 ==> calls <= c.maxRetries)
    ensures match Outcome(f, s, calls)
            case Success(v) => result == Returned(v)
            case Throws(x) => result == Thrown(x)
            case Conflict(e) => result == ThrownConflict(e) && calls == (if c.maxRetries < 1 then 1 else c.maxRetries)
            case Falsy => result == ThrownNil && calls == (if c.maxRetries < 1 then 1 else c.maxRetries)
    ensures Reasonable(c) && Fair(draws) ==> BackedOff(c, Sleeps(acts)) && |Sleeps(acts)| == calls - 1
  {
    if Reasonable(c) && Fair(draws) {
      forall n: nat | n >= 1
        ensures BackedOff(c, Sleeps(Acts(f, s, c, draws, n))) && |Sleeps(Acts(f, s, c, draws, n))| == n - 1
      {
        SleepsBackOff(f, s, c, draws, n);
      }
    }
    var attempt, state := 1, s;
    acts := [];
    while true
      invariant 1 <= attempt <= Allowed(c)
      invariant state == Before(f, s, attempt)
      invariant forall k :: 1 <= k < attempt ==> !Settles(Outcome(f, s, k))
      invariant acts == Acts(f, s, c, draws, attempt)
      decreases Allowed(c) - attempt
    {
      var (after, tried) := f(state, attempt);
      if tried.Throws? {
        return Thrown(tried.exception), after, attempt, acts;
      }
      if tried.Success? {
        return Returned(tried.value), after, attempt, acts;
      }
      var conflict := if tried.Conflict? then Some(tried.conflict) else None;
      if attempt < c.maxRetries {
        var delay := CalculateDelay(attempt, c, draws(attempt));
        if c.onConflict {
          acts := acts + [OnConflict(conflict)];
        }
        if c.onRetry {
          acts := acts + [OnRetry(attempt, conflict)];
        }
        acts := acts + [Sleep(delay)];
        state, attempt := after, attempt + 1;
      } else {
        // throwing nil is itself an error
        return if conflict.Some? then ThrownConflict(conflict.value) else ThrownNil, after, attempt, acts;
      }
    }
  }

  /** The capped delays of the first `n` attempts, and their two bounds. */
  function CappedSum(c: Config, n: nat): real {
    if n == 0 then 0.0 else CappedSum(c, n - 1) + CappedDelay(n, c)
  }

  lemma {:induction false} CappedSumBounds(c: Config, n: nat)
    requires Reasonable(c)
    ensures CappedSum(c, n) <= Times(n as real, c.maxDelay)
    ensures CappedSum(c, n) <= Times(c.initialDelay, GeometricSum(c.multiplier, n))
  {
    if n > 0 {
      CappedSumBounds(c, n - 1);
      TimesAdds(c.maxDelay, (n - 1) as real, 1.0);
      TimesAdds(c.initialDelay, GeometricSum(c.multiplier, n - 1), Pow(c.multiplier, n - 1));
    }
  }

  function GeometricSum(m: real, n: nat): real {
    if n == 0 then 0.0 else GeometricSum(m, n - 1) + Pow(m, n - 1)
  }

  lemma {:induction false} GeometricStep(m: real, sum: real, p: real)
    requires Times(sum, m - 1.0) == p - 1.0
    ensures Times(sum + p, m - 1.0) == m * p - 1.0
  {
  }

  lemma {:induction false} GeometricTelescopes(m: real, n: nat)
    ensures Times(GeometricSum(m, n), m - 1.0) == Pow(m, n) - 1.0
  {
    if n > 0 {
      GeometricTelescopes(m, n - 1);
      GeometricStep(m, GeometricSum(m, n - 1), Pow(m, n - 1));
    }
  }

  lemma {:induction false} Quotient(x: real, d: real, a: real)
    requires d > 0.0 && Times(x, d) == a
    ensures x == a / d
  {
  }

  lemma {:induction false} AddBelow(total: int, delay: int, jitter: real, sum: real, capped: real)
    requires total as real <= WithJitter(jitter, sum) && delay as real <= WithJitter(jitter, capped)
    ensures (total + delay) as real <= WithJitter(jitter, sum + capped)
  {
    WithJitterAdds(jitter, sum, capped);
  }

  lemma {:induction false} SleepsStayBelow<S, V, E, X>(f: (S, nat) -> (S, Attempt<V, E, X>), s: S, c: Config,
                                                       draws: nat -> real, calls: nat)
    requires calls >= 1 && Reasonable(c) && forall k :: 0.0 <= draws(k) <= 1.0
    ensures 0 <= TotalSleep(Acts(f, s, c, draws, calls))
    ensures TotalSleep(Acts(f, s, c, draws, calls)) as real <= WithJitter(c.jitter, CappedSum(c, calls - 1))
  {
    if calls > 1 {
      SleepsStayBelow(f, s, c, draws, calls - 1);
      SleepStep(f, s, c, draws, calls - 1);
      DelayBounds(calls - 1, c, draws(calls - 1));
      AddBelow(TotalSleep(Acts(f, s, c, draws, calls - 1)), CalculateDelay(calls - 1, c, draws(calls - 1)), c.jitter,
               CappedSum(c, calls - 2), CappedDelay(calls - 1, c));
    }
  }

  /** All the sleeps of one call with `calls` attempts stay below both the flat and the geometric bound. */
  lemma {:induction false} TotalSleepBounds<S, V, E, X>(f: (S, nat) -> (S, Attempt<V, E, X>), s: S, c: Config,
                                                        draws: nat -> real, calls: nat)
    requires calls >= 1 && Reasonable(c) && forall k :: 0.0 <= draws(k) <= 1.0
    ensures var total, m, n := TotalSleep(Acts(f, s, c, draws, calls)), c.multiplier, calls - 1;
            && 0 <= total
            && total as real <= WithJitter(c.jitter, Times(n as real, c.maxDelay))
            && total as real <= WithJitter(c.jitter, Times(c.initialDelay, (Pow(m, n) - 1.0) / (m - 1.0)))
  {
    var m, n := c.multiplier, calls - 1;
    SleepsStayBelow(f, s, c, draws, calls);
    CappedSumBounds(c, n);
    GeometricTelescopes(m, n);
    Quotient(GeometricSum(m, n), m - 1.0, Pow(m, n) - 1.0);
    WithJitterGrows(c.jitter, CappedSum(c, n), Times(n as real, c.maxDelay));
    WithJitterGrows(c.jitter, CappedSum(c, n), Times(c.initialDelay, GeometricSum(m, n)));
  }

  // ---------- and how long at least ----------

  lemma {:induction false} AddAbove(total: int, delay: int, jitter: real, sum: real, capped: real, sleeps: nat)
    requires total as real >= WithJitter(jitter, sum) - sleeps as real
    requires delay as real >= WithJitter(jitter, capped) - 1.0
    ensures (total + delay) as real >= WithJitter(jitter, sum + capped) - (sleeps + 1) as real
  {
    WithJitterAdds(jitter, sum, capped);
  }

  lemma {:induction false} SleepsStayAbove<S, V, E, X>(f: (S, nat) -> (S, Attempt<V, E, X>), s: S, c: Config,
                                                       draws: nat -> real, calls: nat)
    requires calls >= 1 && Reasonable(c) && Fair(draws)
    ensures TotalSleep(Acts(f, s, c, draws, calls)) as real
         >= WithJitter(-c.jitter, CappedSum(c, calls - 1)) - (calls - 1) as real
  {
    if calls > 1 {
      SleepsStayAbove(f, s, c, draws, calls - 1);
      SleepStep(f, s, c, draws, calls - 1);
      DelayBounds(calls - 1, c, draws(calls - 1));
      AddAbove(TotalSleep(Acts(f, s, c, draws, calls - 1)), CalculateDelay(calls - 1, c, draws(calls - 1)), -c.jitter,
               CappedSum(c, calls - 2), CappedDelay(calls - 1, c), calls - 2);
    }
  }

  lemma {:induction false} PowGrows(m: real, a: nat, b: nat)
    requires m > 1.0 && a <= b
    ensures Pow(m, a) <= Pow(m, b)
  {
    if a < b {
      PowGrows(m, a, b - 1);
      PowPositive(m, b - 1);
      Scale(1.0, m, Pow(m, b - 1));
    }
  }

  lemma {:induction false} DelayGrows(c: Config, a: nat, b: nat)
    requires Reasonable(c) && a <= b
    ensures Times(c.initialDelay, Pow(c.multiplier, a)) <= Times(c.initialDelay, Pow(c.multiplier, b))
  {
    PowGrows(c.multiplier, a, b);
    Scale(Pow(c.multiplier, a), Pow(c.multiplier, b), c.initialDelay);
  }

  /** The first `growing` delays grow by the multiplier, and the others are the maximum. */
  predicate CapsAfter(c: Config, n: nat, growing: nat) {
    && growing <= n
    && (growing > 0 ==> Times(c.initialDelay, Pow(c.multiplier, growing - 1)) <= c.maxDelay)
    && (growing < n ==> Times(c.initialDelay, Pow(c.multiplier, growing)) >= c.maxDelay)
  }

  lemma {:induction false} GrowingSum(c: Config, n: nat)
    requires Reasonable(c) && (n > 0 ==> Times(c.initialDelay, Pow(c.multiplier, n - 1)) <= c.maxDelay)
    ensures CappedSum(c, n) == Times(c.initialDelay, GeometricSum(c.multiplier, n))
  {
    if n > 0 {
      if n > 1 {
        DelayGrows(c, n - 2, n - 1);
      }
      GrowingSum(c, n - 1);
      TimesAdds(c.initialDelay, GeometricSum(c.multiplier, n - 1), Pow(c.multiplier, n - 1));
    }
  }

  lemma {:induction false} OneMoreTime(n: real, x: real)
    ensures Times(n + 1.0, x) == Times(n, x) + x
  {
    TimesAdds(x, n, 1.0);
  }

  lemma {:induction false} CappedSumIs(c: Config, n: nat, growing: nat)
    requires Reasonable(c) && CapsAfter(c, n, growing)
    ensures CappedSum(c, n)
         == Times(c.initialDelay, GeometricSum(c.multiplier, growing)) + Times((n - growing) as real, c.maxDelay)
    decreases n
  {
    if n == growing {
      GrowingSum(c, n);
      TimesAdds(c.maxDelay, 0.0, 1.0);
      assert Times(0.0, c.maxDelay) == 0.0;
    } else {
      CappedSumIs(c, n - 1, growing);
      DelayGrows(c, growing, n - 1);
      assert CappedDelay(n, c) == c.maxDelay;
      OneMoreTime((n - 1 - growing) as real, c.maxDelay);
      assert (n - growing) as real == (n - 1 - growing) as real + 1.0;
    }
  }

  /** The delays before jitter of n sleeps, of which the first ones grow. */
  function SumOfDelays(c: Config, n: nat, growing: nat): real
    requires c.multiplier > 1.0
  {
    Times(c.initialDelay, (Pow(c.multiplier, growing) - 1.0) / (c.multiplier - 1.0))
    + Times((n - growing) as real, c.maxDelay)
  }

  lemma {:induction false} CappedSumIsClosed(c: Config, n: nat, growing: nat)
    requires Reasonable(c) && CapsAfter(c, n, growing)
    ensures CappedSum(c, n) == SumOfDelays(c, n, growing)
  {
    CappedSumIs(c, n, growing);
    GeometricTelescopes(c.multiplier, growing);
    Quotient(GeometricSum(c.multiplier, growing), c.multiplier - 1.0, Pow(c.multiplier, growing) - 1.0);
  }

  /** Within the jitter around a sum, but for a millisecond each. */
  predicate Near(total: int, jitter: real, sum: real, sleeps: nat) {
    (1.0 - jitter) * sum - sleeps as real <= total as real <= (1.0 + jitter) * sum
  }

  lemma {:induction false} Around(total: int, jitter: real, sum: real, sleeps: nat)
    requires WithJitter(-jitter, sum) - sleeps as real <= total as real <= WithJitter(jitter, sum)
    ensures Near(total, jitter, sum, sleeps)
  {
    WithJitterIs(jitter, sum);
  }

  lemma {:induction false} TotalSleepIsNear<S, V, E, X>(f: (S, nat) -> (S, Attempt<V, E, X>), s: S, c: Config,
                                                        draws: nat -> real, calls: nat)
    requires calls >= 1 && Reasonable(c) && Fair(draws)
    ensures Near(TotalSleep(Acts(f, s, c, draws, calls)), c.jitter, CappedSum(c, calls - 1), calls - 1)
  {
    SleepsStayAbove(f, s, c, draws, calls);
    SleepsStayBelow(f, s, c, draws, calls);
    Around(TotalSleep(Acts(f, s, c, draws, calls)), c.jitter, CappedSum(c, calls - 1), calls - 1);
  }

  /** The sleeps of one call with `calls` attempts lie, up to a millisecond each, within the jitter around the exact
      sum: geometric while the delays grow, and the maximum for each one after that. */
  lemma {:induction false} TotalSleepIsAround<S, V, E, X>(f: (S, nat) -> (S, Attempt<V, E, X>), s: S, c: Config,
                                                          draws: nat -> real, calls: nat, growing: nat)
    requires calls >= 1 && Reasonable(c) && Fair(draws) && CapsAfter(c, calls - 1, growing)
    ensures Near(TotalSleep(Acts(f, s, c, draws, calls)), c.jitter, SumOfDelays(c, calls - 1, growing), calls - 1)
  {
    CappedSumIsClosed(c, calls - 1, growing);
    TotalSleepIsNear(f, s, c, draws, calls);
  }

  /** However many sleeps, some number of them grows. */
  lemma {:induction false} GrowingExists(c: Config, n: nat) returns (growing: nat)
    requires Reasonable(c)
    ensures CapsAfter(c, n, growing)
  {
    if n == 0 {
      growing := 0;
    } else {
      growing := GrowingExists(c, n - 1);
      if growing == n - 1 && Times(c.initialDelay, Pow(c.multiplier, n - 1)) <= c.maxDelay {
        growing := n;
      }
    }
  }

  // ---------- what happens between two attempts ----------

  /** Where the acts after the k-th attempt begin: a sleep each, and a callback each of those that are given. */
  function BlockAt(c: Config, k: nat): nat
    requires k >= 1
  {
    if k == 1 then 0 else BlockAt(c, k - 1) + 1 + (if c.onConflict then 1 else 0) + if c.onRetry then 1 else 0
  }

  ghost predicate IsBlock<E>(c: Config, acts: seq<Act<E>>, at: nat, attempt: nat, cause: Option<E>) {
    var retryAt := if c.onConflict then at + 1 else at;
    var sleepAt := if c.onRetry then retryAt + 1 else retryAt;
    && sleepAt < |acts| && acts[sleepAt].Sleep?
    && (c.onConflict ==> acts[at] == OnConflict(cause))
    && (c.onRetry ==> acts[retryAt] == OnRetry(attempt, cause))
  }

  lemma {:induction false} ActsSize<S, V, E, X>(f: (S, nat) -> (S, Attempt<V, E, X>), s: S, c: Config,
                                                draws: nat -> real, calls: nat)
    requires calls >= 1
    ensures |Acts(f, s, c, draws, calls)| == BlockAt(c, calls)
  {
    if calls > 1 {
      ActsSize(f, s, c, draws, calls - 1);
    }
  }

  /** After each attempt but the last: the conflict callback with the exception of that attempt (nil if its result was
      nil or false), then the retry callback with its number and the same, then the sleep, and nothing else. */
  lemma {:induction false} CallbacksInOrder<S, V, E, X>(f: (S, nat) -> (S, Attempt<V, E, X>), s: S, c: Config,
                                                        draws: nat -> real, calls: nat, k: nat)
    requires 1 <= k < calls
    ensures var acts, tried := Acts(f, s, c, draws, calls), Outcome(f, s, k);
            && |acts| == BlockAt(c, calls)
            && IsBlock(c, acts, BlockAt(c, k), k, if tried.Conflict? then Some(tried.conflict) else None)
  {
    ActsSize(f, s, c, draws, calls);
    ActsSize(f, s, c, draws, calls - 1);
    if k < calls - 1 {
      CallbacksInOrder(f, s, c, draws, calls - 1, k);
    }
  }
}
