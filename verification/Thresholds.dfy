/**
 The integer thresholds of a quorum set: the percentage form used when a configured set is
 converted, and the fault-tolerance form used when its safety is validated.
 */
module Thresholds {

  datatype Level = SimpleMajority | ByzantineFaultTolerance

  /** Number of entries out of `total` that `percent` demands. */
  function FromPercent(total: nat, percent: nat): (t: nat)
    requires 1 <= total && 1 <= percent <= 100
    ensures 1 <= t <= total
  {
    assert total * percent >= 1 by { MulLower(total, percent); }
    assert total * percent <= 100 * total by { MulUpper(total, percent); }
    1 + (total * percent - 1) / 100
  }

  lemma {:induction false} MulLower(a: nat, b: nat)
    requires 1 <= a && 1 <= b
    ensures a * b >= 1
  {
  }

  lemma {:induction false} MulUpper(a: nat, b: nat)
    requires b <= 100
    ensures a * b <= 100 * a
  {
  }

  /** The threshold is the least count that reaches the percentage. */
  lemma {:induction false} FromPercentIsCeiling(total: nat, percent: nat, count: nat)
    requires 1 <= total && 1 <= percent <= 100
    ensures FromPercent(total, percent) <= count <==> total * percent <= 100 * count
  {
    var t := FromPercent(total, percent);
    MulLower(total, percent);
    assert 100 * (t - 1) <= total * percent - 1 < 100 * t;
  }

  /** The minimum acceptable threshold; 0 for a set without entries. */
  function ComputeDefault(validators: nat, innerSets: nat, level: Level): nat {
    var n := validators + innerSets;
    if n == 0 then 0
    else if level == SimpleMajority && innerSets == 0 then n - (n - 1) / 2
    else n - (n - 1) / 3
  }

  /** A 51% flat set never asks for less than a simple majority, and asks for exactly that
      up to 49 (odd sizes) or 100 (even sizes) validators: 51 is the first size to differ. */
  lemma {:induction false} SimpleMajorityAgreement(n: nat)
    requires 1 <= n
    ensures FromPercent(n, 51) >= ComputeDefault(n, 0, SimpleMajority)
    ensures FromPercent(n, 51) == ComputeDefault(n, 0, SimpleMajority)
            <==> n <= (if n % 2 == 1 then 49 else 100)
  {
    var f := n / 2;
    FromPercentIsCeiling(n, 51, f);
    FromPercentIsCeiling(n, 51, f + 1);
    assert n == 2 * f + n % 2;
  }

  /** A 67% set never asks for less than the 3f+1 bound, and asks for exactly that up to
      100, 200 or 300 entries by residue: 103 is the first size to differ. */
  lemma {:induction false} ByzantineAgreement(validators: nat, innerSets: nat)
    requires 1 <= validators + innerSets
    ensures var n := validators + innerSets;
            FromPercent(n, 67) >= ComputeDefault(validators, innerSets, ByzantineFaultTolerance)
    ensures var n := validators + innerSets;
            FromPercent(n, 67) == ComputeDefault(validators, innerSets, ByzantineFaultTolerance)
            <==> n <= (if n % 3 == 1 then 100 else if n % 3 == 2 then 200 else 300)
  {
    var n := validators + innerSets;
    var f, r := (n - 1) / 3, (n - 1) % 3;
    ByThirds(n, f, r);
    assert n % 3 == (if r == 2 then 0 else r + 1);
  }

  lemma {:induction false} ByThirds(n: nat, f: nat, r: nat)
    requires r < 3 && n == 3 * f + 1 + r
    ensures FromPercent(n, 67) >= n - f
    ensures FromPercent(n, 67) == n - f <==> n <= (if r == 0 then 100 else if r == 1 then 200 else 300)
  {
    FromPercentIsCeiling(n, 67, n - f - 1);
    FromPercentIsCeiling(n, 67, n - f);
  }

  /** The minimum is the least count that outvotes the rest of a flat set, or leaves less than a third of
      the entries out in any other one. */
  lemma {:induction false} DefaultIsLeast(validators: nat, innerSets: nat, level: Level, count: nat)
    requires 1 <= validators + innerSets
    ensures var n := validators + innerSets;
            ComputeDefault(validators, innerSets, level) <= count
            <==> if level == SimpleMajority && innerSets == 0 then 2 * count > n else 3 * (n - count) < n
  {
  }
}
