/**
 The replay window of pkg/router/auth.go, in the wrapping 64-bit arithmetic the
 router uses: both the clock and the challenge time are uint64, and the lifetime
 of a challenge goes through a floating-point number.
 */
module Freshness {
  import opened Bytes

  datatype Age = Fresh | FromFuture | Expired

  const NANOS_PER_SECOND: nat := 1_000_000_000
  const FUTURE_ALLOWANCE: nat := 60

  function AddU64(a: nat, b: nat): nat {
    (a + b) % U64_LIMIT
  }

  function SubU64(a: nat, b: nat): nat
    requires a < U64_LIMIT && b < U64_LIMIT
  {
    (a - b) % U64_LIMIT
  }

  function CheckAge(timestamp: nat, now: nat, ttl: nat): Age
    requires timestamp < U64_LIMIT && now < U64_LIMIT
  {
    if timestamp > AddU64(now, FUTURE_ALLOWANCE) then FromFuture
    else if SubU64(now, timestamp) > ttl then Expired
    else Fresh
  }

  // --- the lifetime in seconds -----------------------------------------------------------

  const TWO_TO_53: nat := 0x20_0000_0000_0000

  /** What is used of rounding to float64: it keeps order and integers, and errs by one part in 2^53 at most. */
  ghost predicate IsRounding(round: real -> real) {
    && (forall x, y | 0.0 <= x <= y :: round(x) <= round(y))
    && (forall x | 0.0 <= x <= TWO_TO_53 as real && x == x.Floor as real :: round(x) == x)
    && (forall x | 0.0000000001 <= x :: x - x / (TWO_TO_53 as real) <= round(x) <= x + x / (TWO_TO_53 as real))
  }

  /** uint64(ttl.Seconds()), with the two roundings of Duration.Seconds: of the quotient and of the sum. */
  function Seconds(ttlNanos: nat, round: real -> real): int {
    var fraction := round((ttlNanos % NANOS_PER_SECOND) as real / (NANOS_PER_SECOND as real));
    round((ttlNanos / NANOS_PER_SECOND) as real + fraction).Floor
  }

  /** The lifetime is its whole seconds or, for a lifetime of 48 days or more, perhaps one second more. */
  lemma SecondsBounded(ttlNanos: nat, round: real -> real)
    requires IsRounding(round) && ttlNanos < INT64_LIMIT
    ensures ttlNanos / NANOS_PER_SECOND <= Seconds(ttlNanos, round) <= ttlNanos / NANOS_PER_SECOND + 1
    ensures ttlNanos < 0x40_0000 * NANOS_PER_SECOND ==> Seconds(ttlNanos, round) == ttlNanos / NANOS_PER_SECOND
  {
    var whole, v := ttlNanos / NANOS_PER_SECOND, (ttlNanos % NANOS_PER_SECOND) as real / (NANOS_PER_SECOND as real);
    var fraction := round(v);
    assert whole + 1 <= TWO_TO_53;
    assert round(0.0) == 0.0 && round(1.0) == 1.0;
    assert 0.0 <= v <= 1.0 && 0.0 <= fraction <= 1.0;
    var sum := whole as real + fraction;
    assert round(whole as real) <= round(sum) <= round((whole + 1) as real);
    if ttlNanos < 0x40_0000 * NANOS_PER_SECOND && ttlNanos % NANOS_PER_SECOND > 0 {
      assert 0.000000001 <= v <= 0.999999999;
      assert round(sum) < (whole + 1) as real;
    }
  }

  /**
   For every clock a 64-bit Unix time can show and every positive duration, a
   challenge is fresh exactly when it is not from the future at all and at most
   as many seconds old as the duration is long. The 60 seconds the first comparison
   seems to allow are taken back by the second, whose difference wraps: such a
   challenge is reported as expired.
   */
  lemma WindowExact(timestamp: nat, now: nat, ttlNanos: nat, round: real -> real)
    requires timestamp < U64_LIMIT && now < INT64_LIMIT && ttlNanos < INT64_LIMIT && IsRounding(round)
    ensures var ttl := Seconds(ttlNanos, round);
            && 0 <= ttl
            && var age := CheckAge(timestamp, now, ttl);
               && (age.Fresh? <==> timestamp <= now && now - timestamp <= ttl)
               && (age.FromFuture? <==> timestamp > now + 60)
               && (now < timestamp <= now + 60 ==> age.Expired?)
  {
    SecondsBounded(ttlNanos, round);
    Window(timestamp, now, Seconds(ttlNanos, round));
  }

  /** The same for a lifetime in seconds; it holds as long as that and the allowance fit into 64 bits together. */
  lemma Window(timestamp: nat, now: nat, ttl: nat)
    requires timestamp < U64_LIMIT && now < INT64_LIMIT && ttl < U64_LIMIT - 60
    ensures var age := CheckAge(timestamp, now, ttl);
            && (age.Fresh? <==> timestamp <= now && now - timestamp <= ttl)
            && (age.FromFuture? <==> timestamp > now + 60)
            && (now < timestamp <= now + 60 ==> age.Expired?)
  {
  }
}
