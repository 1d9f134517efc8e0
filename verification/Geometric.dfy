/** Powers, geometric sums and magnitudes of real numbers. */
module Geometric {
  import opened Arithmetic

  function Pow(r: real, n: nat): real {
    if n == 0 then 1.0 else r * Pow(r, n - 1)
  }

  function GeometricSum(r: real, n: nat): real {
    if n == 0 then 0.0 else GeometricSum(r, n - 1) + Pow(r, n - 1)
  }

  lemma {:induction false} GeometricSumClosed(r: real, n: nat)
    ensures (r - 1.0) * GeometricSum(r, n) == Pow(r, n) - 1.0
  {
    if n > 0 {
      GeometricSumClosed(r, n - 1);
      var s, q := GeometricSum(r, n - 1), Pow(r, n - 1);
      assert (r - 1.0) * (s + q) == (r - 1.0) * s + (r - 1.0) * q;
    }
  }

  lemma SumOfDoublings(n: nat)
    ensures GeometricSum(2.0, n) == Pow(2.0, n) - 1.0
  {
  }

  function Positive(x: real): real {
    if x > 0.0 then x else 0.0
  }

  function Magnitude(x: real): real {
    if x >= 0.0 then x else -x
  }

  lemma MagnitudeOfProduct(x: real, y: real)
    ensures Magnitude(x * y) == Magnitude(x) * Magnitude(y)
  {
  }

  lemma {:induction false} PowMagnitude(r: real, n: nat)
    ensures Magnitude(Pow(r, n)) == Pow(Magnitude(r), n)
  {
    if n > 0 {
      PowMagnitude(r, n - 1);
      MagnitudeOfProduct(r, Pow(r, n - 1));
    }
  }

  lemma OneMore(n: nat, x: real)
    requires n > 0
    ensures n as real * x == (n - 1) as real * x + x
  {
  }

  lemma TimesMonotone(a: real, b: real, q: real)
    requires a <= b && q >= 0.0
    ensures a * q <= b * q
  {
  }

  function Least(x: real, y: real): real {
    if x < y then x else y
  }

  lemma {:induction false} PowNonnegative(r: real, n: nat)
    requires r >= 0.0
    ensures Pow(r, n) >= 0.0
  {
    if n > 0 {
      PowNonnegative(r, n - 1);
      TimesMonotone(0.0, r, Pow(r, n - 1));
    }
  }

  lemma LeastIsAbove(slept: real, base: real, x: real, y: real)
    requires slept <= 1.5 * base && base <= x && base <= y
    ensures slept <= 1.5 * Least(x, y)
  {
  }

  /** A product of a start and a power, under a cap. */
  function Capped(start: real, r: real, cap: real, n: nat): real {
    Least(cap, start * Pow(r, n))
  }

  lemma CappedTimes(start: real, r: real, q: real, x: real, cap: real)
    requires r >= 1.0 && cap >= 0.0 && x == start * q
    ensures Least(cap, start * (r * q)) == Least(cap, r * Least(cap, x))
  {
    assert start * (r * q) == r * x;
    if x > cap {
      TimesMonotone(1.0, r, cap);
      TimesMonotone(cap, x, r);
    }
  }

  lemma CappedNext(start: real, r: real, cap: real, n: nat)
    requires r >= 1.0 && cap >= 0.0
    ensures Capped(start, r, cap, n + 1) == Least(cap, r * Capped(start, r, cap, n))
  {
    CappedTimes(start, r, Pow(r, n), start * Pow(r, n), cap);
  }

  /** A delay lengthened by a random share of half of it. */
  function Jittered(base: real, random: real): real {
    base + random * 0.5 * base
  }

  lemma JitterIsShare(base: real, random: real)
    ensures Jittered(base, random) == (1.0 + random / 2.0) * base
  {
  }

  lemma TruncKeepsOrder(x: real, y: real)
    ensures x <= y ==> Trunc(x) <= Trunc(y)
    ensures Trunc(x) as real <= Positive(x)
  {
  }

  lemma JitterStretches(base: real, random: real)
    requires 0.0 <= random < 1.0
    ensures base >= 0.0 ==> base <= Jittered(base, random) <= 1.5 * base
    ensures base <= 0.0 ==> Jittered(base, random) <= 0.0
  {
    var share := 1.0 + random / 2.0;
    JitterIsShare(base, random);
    if base >= 0.0 {
      TimesMonotone(1.0, share, base);
      TimesMonotone(share, 1.5, base);
    } else {
      TimesMonotone(0.0, share, -base);
      assert share * -base == -(share * base);
    }
  }

  lemma JitterBounds(base: real, random: real, delay: real)
    requires 0.0 <= random < 1.0 && (delay == Jittered(base, random) || delay == base)
    ensures Trunc(delay) as real <= 1.5 * Positive(base)
    ensures base >= 0.0 ==> Trunc(delay) >= Trunc(base)
  {
    JitterStretches(base, random);
    TruncKeepsOrder(base, delay);
    TruncKeepsOrder(delay, delay);
  }
}
