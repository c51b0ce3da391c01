/**
  The retry delay Fail computes. The source works in 64-bit nanoseconds, so the multiplication
  can wrap; `MachineBackoff` models that, `ExactBackoff` is the capped exponential it stands for.
 */
module FrontierBackoff {
  import opened Prelude

  const SECOND: int := 1_000_000_000
  const MINUTE: int := 60 * SECOND

  /** MaxBackoff and BackoffBase of a frontier. */
  datatype Policy = Policy(maxBackoff: int, base: int)

  const DEFAULT_POLICY := Policy(3600 * SECOND, 30 * SECOND)

  const TWO_63: int := 0x8000_0000_0000_0000
  const TWO_64: int := 0x1_0000_0000_0000_0000

  function Pow2(n: nat): (p: int)
    ensures p >= 1
  {
    if n == 0 then 1 else 2 * Pow2(n - 1)
  }

  /** Two's-complement wrap to a signed 64-bit value. */
  function Wrap64(x: int): int {
    var m := x % TWO_64;
    if m >= TWO_63 then m - TWO_64 else m
  }

  /** `time.Duration(math.Pow(2, attempts-1))`: 2^-1 truncates to 0, and powers beyond the
      int64 range convert to the minimum value (the amd64 conversion). */
  function Factor(attempts: nat): int {
    if attempts == 0 then 0
    else if attempts <= 63 then Pow2(attempts - 1)
    else -TWO_63
  }

  function MachineBackoff(attempts: nat, p: Policy): int {
    var delay := Wrap64(Factor(attempts) * p.base);
    if delay > p.maxBackoff || delay <= 0 then p.maxBackoff else delay
  }

  /** The documented schedule: 2^(attempts-1) times the base, capped. */
  function ExactBackoff(attempts: nat, p: Policy): int
    requires attempts >= 1
  {
    Min(Pow2(attempts - 1) * p.base, p.maxBackoff)
  }

  lemma {:induction false} Pow2Monotone(m: nat, n: nat)
    requires m <= n
    ensures Pow2(m) <= Pow2(n)
    decreases n
  {
    if m < n { Pow2Monotone(m, n - 1); }
  }

  lemma {:induction false} Pow2Sum(m: nat, n: nat)
    ensures Pow2(m + n) == Pow2(m) * Pow2(n)
  {
    if m > 0 {
      Pow2Sum(m - 1, n);
      assert m + n - 1 == (m - 1) + n;
    }
  }

  lemma Pow2Values()
    ensures Pow2(28) == 0x1000_0000 && Pow2(32) == 0x1_0000_0000 && Pow2(40) == 0x100_0000_0000
  {
    assert Pow2(2) == 4;
    Pow2Sum(2, 2);
    Pow2Sum(4, 4);
    Pow2Sum(8, 8);
    Pow2Sum(16, 16);
    Pow2Sum(28, 4);
    Pow2Sum(32, 8);
  }

  /** The documented schedule is positive, capped and never shrinks as attempts grow. */
  lemma ExactBackoffGrows(a: nat, b: nat, p: Policy)
    requires 1 <= a <= b && p.base > 0 && p.maxBackoff > 0
    ensures 0 < ExactBackoff(a, p) <= ExactBackoff(b, p) <= p.maxBackoff
  {
    Pow2Monotone(a - 1, b - 1);
    assert Pow2(a - 1) * p.base <= Pow2(b - 1) * p.base;
    assert Pow2(a - 1) * p.base >= p.base;
  }

  /** Whatever the wrap does, the delay Fail schedules lies in (0, MaxBackoff]. */
  lemma MachineBackoffBounded(a: nat, p: Policy)
    requires p.maxBackoff > 0
    ensures 0 < MachineBackoff(a, p) <= p.maxBackoff
  {
  }

  /** The product passes 2^63 and its wrapped value still looks like an ordinary short delay. */
  predicate WrapsToShortDelay(a: nat, p: Policy)
    requires a >= 1
  {
    Pow2(a - 1) * p.base >= TWO_63 && 0 < Wrap64(Factor(a) * p.base) < p.maxBackoff
  }

  /** The machine computes the documented schedule exactly when the product does not wrap to a
      short positive delay, the one case its range check cannot see. */
  lemma MachineIsExactIff(a: nat, p: Policy)
    requires a >= 1 && p.base > 0 && 0 < p.maxBackoff < TWO_63
    ensures MachineBackoff(a, p) == ExactBackoff(a, p) <==> !WrapsToShortDelay(a, p)
  {
    hide Pow2;
    var product := Pow2(a - 1) * p.base;
    assert product >= Pow2(a - 1);
    LargeAttemptsOverflow(a);
    if product < TWO_63 {
      WrapKeepsRange(product);
    }
  }

  lemma WrapKeepsRange(x: int)
    requires 0 <= x < TWO_63
    ensures Wrap64(x) == x
  {
  }

  lemma LargeAttemptsOverflow(a: nat)
    ensures a >= 64 ==> Pow2(a - 1) >= TWO_63
  {
    if a >= 64 {
      Pow2Values();
      Pow2Sum(32, 28);
      Pow2Sum(60, 3);
      assert Pow2(3) == 8;
      Pow2Monotone(63, a - 1);
    }
  }

  /** The wrapped value of a multiple of 2^42 is zero or at least 2^42 in magnitude. */
  lemma WrapKeepsMultiples(x: int, q: int)
    requires x == q * 0x400_0000_0000
    ensures Wrap64(x) <= 0 || Wrap64(x) >= 0x400_0000_0000
  {
    var w := x / TWO_64;
    assert x % TWO_64 == x - w * TWO_64;
    assert TWO_64 == 0x40_0000 * 0x400_0000_0000;
    assert x % TWO_64 == (q - w * 0x40_0000) * 0x400_0000_0000;
    assert TWO_63 == 0x20_0000 * 0x400_0000_0000;
    var m := q - w * 0x40_0000;
    assert Wrap64(x) == m * 0x400_0000_0000 || Wrap64(x) == (m - 0x40_0000) * 0x400_0000_0000;
  }

  /** Past the 32nd attempt every default product is a multiple of 2^42 ns, more than an hour. */
  lemma DefaultBackoffSaturates(a: nat)
    requires a >= 33
    ensures MachineBackoff(a, DEFAULT_POLICY) == DEFAULT_POLICY.maxBackoff
  {
    var base := DEFAULT_POLICY.base;
    if a <= 63 {
      Pow2Values();
      Pow2Sum(32, a - 33);
      assert base == 0x400 * 29296875;
      WrapKeepsMultiples(Factor(a) * base, Pow2(a - 33) * 29296875);
    } else {
      WrapKeepsMultiples(Factor(a) * base, -0x20_0000 * base);
    }
  }

  /** With the default one-hour cap and 30 s base the machine computes the documented schedule
      for every number of attempts, although from the 30th on the product wraps. */
  lemma DefaultBackoffIsExact(a: nat)
    requires a >= 1
    ensures MachineBackoff(a, DEFAULT_POLICY) == ExactBackoff(a, DEFAULT_POLICY)
  {
    Pow2Values();
    if a <= 29 {
      Pow2Monotone(a - 1, 28);
      MachineIsExactIff(a, DEFAULT_POLICY);
    } else {
      Pow2Monotone(28, a - 1);
      assert ExactBackoff(a, DEFAULT_POLICY) == DEFAULT_POLICY.maxBackoff;
      if a <= 32 {
        assert Pow2(29) == 2 * Pow2(28) && Pow2(30) == 2 * Pow2(29) && Pow2(31) == 2 * Pow2(30);
      } else {
        DefaultBackoffSaturates(a);
      }
    }
  }

  /** With another base the schedule can shrink: at 2^23 + 1 ns the 42nd attempt waits less than
      the 41st, because the product wraps past zero to a short positive delay. */
  lemma WrappedBackoffCanShrink()
    ensures var p := Policy(3600 * SECOND, 0x80_0001);
            MachineBackoff(42, p) < MachineBackoff(41, p) == p.maxBackoff == ExactBackoff(42, p)
  {
    Pow2Values();
    var p := Policy(3600 * SECOND, 0x80_0001);
    assert Factor(41) == Pow2(40) && Factor(42) == 2 * Pow2(40);
    assert Wrap64(0x100_0000_0000 * 0x80_0001) < 0;
    assert Wrap64(0x200_0000_0000 * 0x80_0001) == 0x200_0000_0000;
    assert ExactBackoff(42, p) == p.maxBackoff;
  }
}
