/** The jittered exponential backoff between the attempts of a failing job. */
module RetryDelay {
  const I64_RANGE: int := 0x1_0000_0000_0000_0000
  const I64_MIN: int := -0x8000_0000_0000_0000
  const I64_MAX: int := 0x7fff_ffff_ffff_ffff
  const I32_MIN: int := -0x8000_0000
  const I32_MAX: int := 0x7fff_ffff

  function Clamp(x: int, low: int, high: int): int {
    if x < low then low else if x > high then high else x
  }

  /** Two's-complement wrap-around of 64-bit arithmetic. */
  function Wrap(x: int): int {
    (x - I64_MIN) % I64_RANGE + I64_MIN
  }

  /** Integer division that truncates toward zero. */
  function TruncatedDiv(a: int, b: int): int
    requires b > 0
  {
    if a < 0 then -((-a) / b) else a / b
  }

  function Pow2(n: nat): nat {
    if n == 0 then 1 else 2 * Pow2(n - 1)
  }

  /** 0 after the first attempt, growing by one with each attempt up to 5. */
  function Exponent(attempts: int): nat {
    Clamp(Clamp(attempts - 1, I32_MIN, I32_MAX), 0, 5)
  }

  function Backoff(exponent: nat): nat {
    if 5 * Pow2(exponent) < 300 then 5 * Pow2(exponent) else 300
  }

  function JitterPercent(jobId: int, nanos: int): int {
    Wrap(nanos + Wrap(jobId * 97)) % 31 - 15
  }

  function Jittered(backoff: int, percent: int): int {
    backoff + TruncatedDiv(backoff * percent, 100)
  }

  function DelaySeconds(jobId: int, attempts: int, nanos: int): int {
    Clamp(Jittered(Backoff(Exponent(attempts)), JitterPercent(jobId, nanos)), 1, 600)
  }

  lemma JitterIsBounded(jobId: int, nanos: int)
    ensures -15 <= JitterPercent(jobId, nanos) <= 15
  {
  }

  /** The product with the job id does not wrap around, nor does the sum with the clock. */
  predicate Unwrapped(jobId: int, nanos: int) {
    I64_MIN <= jobId * 97 <= I64_MAX && I64_MIN <= nanos + jobId * 97 <= I64_MAX
  }

  lemma UnwrappedStays(x: int)
    requires I64_MIN <= x <= I64_MAX
    ensures Wrap(x) == x
  {
  }

  lemma UnwrappedJitter(jobId: int, nanos: int)
    requires Unwrapped(jobId, nanos)
    ensures JitterPercent(jobId, nanos) == (nanos + jobId * 97) % 31 - 15
  {
    UnwrappedStays(jobId * 97);
    UnwrappedStays(nanos + jobId * 97);
  }

  lemma StepTo(seed: int, rest: int) returns (step: int)
    requires 0 <= rest < 31
    ensures 0 <= step < 31 && (seed + step) % 31 == rest
  {
    step := if seed % 31 <= rest then rest - seed % 31 else rest + 31 - seed % 31;
    assert seed == seed / 31 * 31 + seed % 31;
  }

  lemma StepsAway(a: int, b: int, d: int)
    requires b == a + 97 * d && 0 < d < 31
    ensures a % 31 != b % 31
  {
    var q, r := a / 31, b / 31;
    assert a == 31 * q + a % 31 && b == 31 * r + b % 31;
    assert a % 31 == b % 31 ==> 31 * (r - q - 3 * d) == 4 * d;
  }

  /** While nothing wraps around, 31 successive clock readings give every percentage. */
  lemma EveryJitterOccurs(jobId: int, from: int, percent: int) returns (nanos: int)
    requires -15 <= percent <= 15 && Unwrapped(jobId, from) && Unwrapped(jobId, from + 30)
    ensures from <= nanos < from + 31 && JitterPercent(jobId, nanos) == percent
  {
    var step := StepTo(from + jobId * 97, percent + 15);
    nanos := from + step;
    UnwrappedJitter(jobId, nanos);
  }

  /** Jobs with ids fewer than 31 apart that fail at the same instant get different
      percentages. */
  lemma NearbyJobsSpread(jobId: int, jobId': int, nanos: int)
    requires 0 < jobId' - jobId < 31 && Unwrapped(jobId, nanos) && Unwrapped(jobId', nanos)
    ensures JitterPercent(jobId, nanos) != JitterPercent(jobId', nanos)
  {
    UnwrappedJitter(jobId, nanos);
    UnwrappedJitter(jobId', nanos);
    StepsAway(nanos + jobId * 97, nanos + jobId' * 97, jobId' - jobId);
  }

  lemma BackoffValues()
    ensures Backoff(0) == 5 && Backoff(1) == 10 && Backoff(2) == 20
    ensures Backoff(3) == 40 && Backoff(4) == 80 && Backoff(5) == 160
  {
    assert Pow2(1) == 2 && Pow2(2) == 4 && Pow2(3) == 8;
    assert Pow2(4) == 16 && Pow2(5) == 32;
  }

  /** The least and greatest delay of each exponent. */
  function LeastDelay(exponent: nat): int {
    match exponent
    case 0 => 5 case 1 => 9 case 2 => 17 case 3 => 34 case 4 => 68 case _ => 136
  }

  function GreatestDelay(exponent: nat): int {
    match exponent
    case 0 => 5 case 1 => 11 case 2 => 23 case 3 => 46 case 4 => 92 case _ => 184
  }

  lemma JitteredRange(exponent: nat, percent: int)
    requires exponent <= 5 && -15 <= percent <= 15
    ensures LeastDelay(exponent) <= Jittered(Backoff(exponent), percent) <= GreatestDelay(exponent)
  {
    BackoffValues();
  }

  /** Whatever the job, the attempt and the clock: the delay stays within 15% of
      the backoff, the final clamp never changes it, and it lies in the range of
      its exponent. */
  lemma DelayIsNearBackoff(jobId: int, attempts: int, nanos: int)
    ensures var e, d := Exponent(attempts), DelaySeconds(jobId, attempts, nanos);
            && d == Jittered(Backoff(e), JitterPercent(jobId, nanos))
            && 85 * Backoff(e) <= 100 * d <= 115 * Backoff(e)
            && LeastDelay(e) <= d <= GreatestDelay(e)
  {
    var e := Exponent(attempts);
    JitterIsBounded(jobId, nanos);
    BackoffValues();
    JitteredRange(e, JitterPercent(jobId, nanos));
  }

  /** The ranges of successive exponents are disjoint and increasing, so a later
      attempt always waits longer until the exponent is capped. */
  lemma LaterAttemptsWaitLonger(jobId: int, jobId': int, attempts: int, attempts': int, nanos: int, nanos': int)
    requires 1 <= attempts < attempts' <= 6
    ensures DelaySeconds(jobId, attempts, nanos) < DelaySeconds(jobId', attempts', nanos')
  {
    DelayIsNearBackoff(jobId, attempts, nanos);
    DelayIsNearBackoff(jobId', attempts', nanos');
  }
}
