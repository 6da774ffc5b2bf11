/** Timer ticks and nanoseconds in 64-bit arithmetic that never overflows,
    against the exact quotients. */
module Timebase {
  import opened Arithmetic

  const U64_MAX := 0xffff_ffff_ffff_ffff
  const NANOS := 1_000_000_000

  /** `u64::MAX / 1e9`. */
  const MAX_FREQUENCY := 18_446_744_073

  predicate U64(x: int) { 0 <= x <= U64_MAX }

  /** A frequency `Timebase::new` accepts. */
  predicate Accepted(f: nat) { 0 < f <= MAX_FREQUENCY }

  function Capped(x: nat): (r: nat)
    ensures r <= U64_MAX
  {
    if x <= U64_MAX then x else U64_MAX
  }

  function SaturatingMul(a: nat, b: nat): nat { Capped(a * b) }

  function SaturatingAdd(a: nat, b: nat): nat { Capped(a + b) }

  function CeilDiv(a: nat, b: nat): nat
    requires b > 0
  {
    if a % b == 0 then a / b else a / b + 1
  }

  lemma MulLe(a: nat, b: nat, c: nat, d: nat)
    requires a <= b && c <= d
    ensures a * c <= b * d
  {
  }

  /** Sub-second products fit 64 bits, so the plain multiplications below are
      the machine's. */
  lemma ProductFits(a: nat, b: nat)
    requires a < NANOS && b <= MAX_FREQUENCY
    ensures U64(a * b)
  {
    MulLe(a, NANOS, b, MAX_FREQUENCY);
  }

  function TicksToNanos(f: nat, ticks: nat): nat
    requires Accepted(f)
  {
    var seconds, remainder := ticks / f, ticks % f;
    SaturatingAdd(SaturatingMul(seconds, NANOS), remainder * NANOS / f)
  }

  function NanosToTicksCeil(f: nat, nanos: nat): nat
    requires Accepted(f)
  {
    var seconds, subsecond := nanos / NANOS, nanos % NANOS;
    SaturatingAdd(SaturatingMul(seconds, f), CeilDiv(subsecond * f, NANOS))
  }

  function DurationToTicks(f: nat, seconds: nat, subsecond: nat): nat
    requires Accepted(f) && subsecond < NANOS
  {
    SaturatingAdd(SaturatingMul(seconds, f), subsecond * f / NANOS)
  }

  // ---- Exactness

  lemma CappedSum(a: nat, b: nat)
    ensures SaturatingAdd(Capped(a), b) == Capped(a + b)
  {
  }

  lemma TicksToNanosExact(f: nat, ticks: nat)
    requires Accepted(f) && U64(ticks)
    ensures TicksToNanos(f, ticks) == Capped(ticks * NANOS / f)
    ensures U64(ticks % f * NANOS)
  {
    var q, r := ticks / f, ticks % f;
    assert ticks == q * f + r;
    assert ticks * NANOS == q * NANOS * f + r * NANOS;
    DivSplit(q * NANOS, r * NANOS, f);
    CappedSum(q * NANOS, r * NANOS / f);
    MulLe(r, MAX_FREQUENCY, NANOS, NANOS);
  }

  lemma NanosToTicksExact(f: nat, nanos: nat)
    requires Accepted(f) && U64(nanos)
    ensures NanosToTicksCeil(f, nanos) == Capped(CeilDiv(nanos * f, NANOS))
    ensures U64(nanos % NANOS * f)
  {
    var q, r := nanos / NANOS, nanos % NANOS;
    assert nanos == q * NANOS + r;
    assert nanos * f == q * f * NANOS + r * f;
    DivSplit(q * f, r * f, NANOS);
    CappedSum(q * f, CeilDiv(r * f, NANOS));
    ProductFits(r, f);
  }

  lemma DurationToTicksExact(f: nat, seconds: nat, subsecond: nat)
    requires Accepted(f) && U64(seconds) && subsecond < NANOS
    ensures DurationToTicks(f, seconds, subsecond) == Capped((seconds * NANOS + subsecond) * f / NANOS)
    ensures U64(subsecond * f)
  {
    assert (seconds * NANOS + subsecond) * f == seconds * f * NANOS + subsecond * f;
    DivSplit(seconds * f, subsecond * f, NANOS);
    CappedSum(seconds * f, subsecond * f / NANOS);
    ProductFits(subsecond, f);
  }

  // ---- Deadlines

  lemma CeilAtMost(a: nat, b: nat, t: nat)
    requires b > 0
    ensures CeilDiv(a, b) <= t <==> a <= t * b
  {
    var q, r := a / b, a % b;
    assert a == q * b + r;
    if CeilDiv(a, b) <= t {
      if r == 0 { assert q * b <= t * b; } else { assert (q + 1) * b <= t * b; assert (q + 1) * b == q * b + b; }
    } else {
      if t < q { assert (t + 1) * b <= q * b; assert (t + 1) * b == t * b + b; } else { assert t == q && r > 0; }
    }
  }

  lemma FloorAtLeast(a: nat, b: nat, n: nat)
    requires b > 0
    ensures n <= a / b <==> n * b <= a
  {
    var q, r := a / b, a % b;
    assert a == q * b + r;
    if n <= q { assert n * b <= q * b; } else { assert (q + 1) * b <= n * b; assert (q + 1) * b == q * b + b; }
  }

  /** A deadline is the least tick count whose time has reached the request:
      never early, and never later than it has to be. */
  lemma DeadlineLeast(f: nat, nanos: nat, ticks: nat)
    requires Accepted(f) && U64(nanos) && ticks < U64_MAX
    ensures NanosToTicksCeil(f, nanos) <= ticks <==> nanos <= TicksToNanos(f, ticks)
  {
    NanosToTicksExact(f, nanos);
    TicksToNanosExact(f, ticks);
    CeilAtMost(nanos * f, NANOS, ticks);
    FloorAtLeast(ticks * NANOS, f, nanos);
  }

  /** The maximum is the largest frequency for which sub-second products fit. */
  lemma MaxFrequency(f: nat)
    ensures f <= MAX_FREQUENCY <==> f * NANOS <= U64_MAX
  {
  }
}
