/** Retry delays of the outbox worker; times are nanoseconds. */
module Backoff {
  import opened Model

  const MAX_ATTEMPTS := 10
  const BASE_DELAY := 5 * SECOND
  const MAX_DELAY := 7200 * SECOND

  function Pow2(n: nat): nat {
    if n == 0 then 1 else 2 * Pow2(n - 1)
  }

  /** The delay before jitter: the base doubled per attempt, capped. */
  function Nominal(attempt: int): int {
    var d := BASE_DELAY * Pow2(if attempt <= 1 then 0 else attempt - 1);
    if d > MAX_DELAY then MAX_DELAY else d
  }

  /** Conversion of a float to a duration drops the fraction. */
  function Truncate(x: real): int {
    if x >= 0.0 then x.Floor else -(-x).Floor
  }

  /** r is the random draw in [0, 1). */
  function Jitter(delay: int, r: real): int {
    Truncate(Spread(delay as real * 0.2, r * 2.0 - 1.0))
  }

  function Spread(bound: real, f: real): real {
    bound * f
  }

  function RetryAt(attempt: int, now: int, r: real): int {
    now + Nominal(attempt) + Jitter(Nominal(attempt), r)
  }

  /** The nominal delay, and a share of it within a fifth that the draw r
      decides, its fraction of a nanosecond dropped. */
  method NextRetry(attempt: int, now: int, r: real) returns (next: int)
    ensures next == RetryAt(attempt, now, r)
    ensures var jitter, exact := (next - now - Nominal(attempt)) as real, Nominal(attempt) as real * 0.2 * (2.0 * r - 1.0);
            if exact >= 0.0 then jitter <= exact < jitter + 1.0 else jitter - 1.0 < exact <= jitter
  {
    JitterExact(Nominal(attempt), r);
    var delay := BASE_DELAY;
    if attempt > 1 {
      var maxMultiplier := MAX_DELAY as real / BASE_DELAY as real;
      var exp := Pow2(attempt - 1) as real;
      if exp >= maxMultiplier {
        delay := MAX_DELAY;
      } else {
        delay := BASE_DELAY * Pow2(attempt - 1);
      }
    }
    if delay > MAX_DELAY {
      delay := MAX_DELAY;
    }
    var jitter := Jitter(delay, r);
    next := now + delay + jitter;
  }

  lemma {:induction false} Pow2Monotone(a: nat, b: nat)
    requires a <= b
    ensures Pow2(a) <= Pow2(b)
  {
    if a >= b {
    } else {
      Pow2Monotone(a, b - 1);
    }
  }

  lemma Pow2Values()
    ensures Pow2(0) == 1 && Pow2(1) == 2 && Pow2(2) == 4 && Pow2(3) == 8 && Pow2(4) == 16 && Pow2(5) == 32
    ensures Pow2(6) == 64 && Pow2(7) == 128 && Pow2(8) == 256 && Pow2(9) == 512 && Pow2(10) == 1024 && Pow2(11) == 2048
  {
    assert Pow2(3) == 8;
    assert Pow2(6) == 64;
    assert Pow2(9) == 512;
  }

  /** Delays never shrink from one attempt to the next, and the cap is out of
      reach within the attempt limit: it starts at the twelfth attempt. */
  lemma NominalShape(a: int, b: int)
    requires a <= b
    ensures BASE_DELAY <= Nominal(a) <= Nominal(b) <= MAX_DELAY
    ensures Nominal(a) == MAX_DELAY <==> a >= 12
    ensures a <= 1 ==> Nominal(a) == 5_000_000_000
    ensures 1 <= a <= 11 ==> Nominal(a) == 5_000_000_000 * Pow2(a - 1)
    ensures MAX_DELAY == 7_200_000_000_000
  {
    var x, y := if a <= 1 then 0 else a - 1, if b <= 1 then 0 else b - 1;
    Pow2Monotone(0, x);
    Pow2Monotone(x, y);
    Pow2Values();
    if a >= 12 { Pow2Monotone(11, x); } else { Pow2Monotone(x, 10); }
  }

  /** Jitter stays within a fifth of the delay, for every draw. */
  lemma JitterBound(delay: int, r: real)
    requires delay >= 0 && 0.0 <= r < 1.0
    ensures -delay <= 5 * Jitter(delay, r) <= delay
  {
    hide Spread, Truncate;
    var bound, f := delay as real * 0.2, r * 2.0 - 1.0;
    assert 5.0 * bound == delay as real;
    SpreadRange(bound, f);
    TruncateRange(Spread(bound, f), delay);
  }

  lemma JitterExact(delay: int, r: real)
    ensures var jitter, exact := Jitter(delay, r) as real, delay as real * 0.2 * (2.0 * r - 1.0);
            if exact >= 0.0 then jitter <= exact < jitter + 1.0 else jitter - 1.0 < exact <= jitter
  {
    SpreadIs(delay as real * 0.2, r * 2.0 - 1.0);
    TruncateIs(Spread(delay as real * 0.2, r * 2.0 - 1.0));
    hide Spread, Truncate;
    assert r * 2.0 - 1.0 == 2.0 * r - 1.0;
  }

  lemma SpreadIs(bound: real, f: real)
    ensures Spread(bound, f) == bound * f
  {}

  lemma TruncateIs(x: real)
    ensures if x >= 0.0 then Truncate(x) as real <= x < Truncate(x) as real + 1.0
            else Truncate(x) as real - 1.0 < x <= Truncate(x) as real
  {}

  lemma SpreadRange(bound: real, f: real)
    requires bound >= 0.0 && -1.0 <= f <= 1.0
    ensures -bound <= Spread(bound, f) <= bound
  {
    assert bound * (1.0 - f) >= 0.0 && bound * (1.0 - f) == bound - bound * f;
    assert bound * (1.0 + f) >= 0.0 && bound * (1.0 + f) == bound + bound * f;
  }

  lemma TruncateRange(x: real, d: int)
    requires -(d as real) <= 5.0 * x <= d as real
    ensures -d <= 5 * Truncate(x) <= d
  {
    if x >= 0.0 {
      assert (5 * x.Floor) as real <= d as real;
    } else {
      assert (5 * (-x).Floor) as real <= d as real;
    }
  }

  /** Retry n waits at least 0.8 * 5 * 2^(n-1) seconds. */
  lemma RetryAtLeast(attempt: int, now: int, r: real)
    requires 1 <= attempt <= MAX_ATTEMPTS && 0.0 <= r < 1.0
    ensures RetryAt(attempt, now, r) >= now + 4 * SECOND * Pow2(attempt - 1)
    ensures 5 * RetryAt(attempt, now, r) <= 5 * now + 6 * Nominal(attempt)
  {
    NominalShape(attempt, attempt);
    JitterBound(Nominal(attempt), r);
  }
}
