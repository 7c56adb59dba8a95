/**
  The iteration-count calculator of the micro-benchmark helpers. A `Duration`
  is modelled as a natural number of nanoseconds; `Duration / u32` is the
  truncating division of that number (Rust carries the remainder of the seconds
  into the nanoseconds, so the quotient is the floor of the total).
 */
module Benchmarking {

  newtype u32 = x: int | 0 <= x <= 0xFFFF_FFFF

  function Pow10(k: nat): (p: nat)
    ensures p >= 1
  {
    if k == 0 then 1 else 10 * Pow10(k - 1)
  }

  lemma {:induction false} Pow10Monotone(j: nat, k: nat)
    requires j <= k
    ensures Pow10(j) <= Pow10(k)
    decreases k
  {
    if j < k {
      Pow10Monotone(j, k - 1);
    }
  }

  /** `k` is the least exponent for which `desired / 10^k` no longer exceeds
      `one`: the point where the loop of `calc_iterations` stops. */
  ghost predicate IsLeastExponent(one: nat, desired: nat, k: nat)
  {
    && desired / Pow10(k) <= one
    && forall j: nat :: j < k ==> desired / Pow10(j) > one
  }

  lemma LeastExponentUnique(one: nat, desired: nat, k1: nat, k2: nat)
    requires IsLeastExponent(one, desired, k1) && IsLeastExponent(one, desired, k2)
    ensures k1 == k2
  {
  }

  /** Halving a power of ten: zero for 10^0, otherwise five times the next
      lower power. */
  lemma {:induction false} HalfPow10(k: nat)
    ensures Pow10(k) / 2 == if k == 0 then 0 else 5 * Pow10(k - 1)
  {
  }

  /** `calc_iterations`: multiply `div` by ten until `desired / div` no longer
      exceeds one measurement, and return half of it. The precondition is
      exactly the condition under which `div *= 10` never passes `u32::MAX`
      (the loop would otherwise need 10^10). */
  method CalcIterations(oneMeasurementTakes: nat, desiredTime: nat) returns (r: u32)
    requires desiredTime / Pow10(9) <= oneMeasurementTakes
    ensures exists k: nat :: k <= 9 && IsLeastExponent(oneMeasurementTakes, desiredTime, k)
                             && r as int == Pow10(k) / 2
    ensures r == 0 <==> desiredTime <= oneMeasurementTakes
    ensures r == 0 || exists k: nat :: k <= 8 && r as int == 5 * Pow10(k)
  {
    var div: u32 := 1;
    ghost var k: nat := 0;
    assert Pow10(9) == 1_000_000_000;
    while desiredTime / div as int > oneMeasurementTakes
      invariant k <= 9 && div as int == Pow10(k)
      invariant forall j: nat :: j < k ==> desiredTime / Pow10(j) > oneMeasurementTakes
      decreases 9 - k
    {
      Pow10Monotone(k + 1, 9);
      div := div * 10;
      k := k + 1;
    }
    r := div / 2;
    HalfPow10(k);
    assert IsLeastExponent(oneMeasurementTakes, desiredTime, k);
    if k == 0 {
      assert desiredTime / 1 == desiredTime;
    } else {
      assert desiredTime / Pow10(0) > oneMeasurementTakes;
    }
  }
}
