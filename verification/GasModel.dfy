/** The fixed-point cost model: what a transaction of a given amount costs in gas. */
module GasModel {
  import opened Primitives

  const GAS_SCALE: nat := 10_000

  function Saturate(n: nat): U64 { if n <= U64_MAX then n else U64_MAX }

  /** How f64 arithmetic rounds a real result. */
  type Rounding = real -> real

  /** The relative error of rounding to 53 bits. */
  const UNIT_ROUNDOFF: real := 1.0 / 9007199254740992.0

  /** Rounding keeps order, and results from 0.0001 up to 2^53 are exact to 53 bits. */
  ghost predicate RoundsF64(fl: Rounding) {
    && (forall x, y :: x <= y ==> fl(x) <= fl(y)) && fl(0.0) == 0.0
    && forall x :: 0.0001 <= x <= 9007199254740992.0 ==> x - x * UNIT_ROUNDOFF <= fl(x) <= x + x * UNIT_ROUNDOFF
  }

  /** `(multiplier * GAS_SCALE).round() as u64`: half away from zero, and the cast clamps. */
  function MultiplierToFixed(fl: Rounding, multiplier: real): U64 {
    var scaled := fl(multiplier * GAS_SCALE as real);
    if scaled < 0.0 then 0 else Saturate((scaled + 0.5).Floor)
  }

  function GasFromAmount(amount: U64, fixed: U64): U64 {
    Saturate(amount as nat * fixed as nat) as nat / GAS_SCALE
  }

  function ComputeGas(fl: Rounding, base: U64, amount: U64, multiplier: real): U64 {
    Saturate(base as nat + GasFromAmount(amount, MultiplierToFixed(fl, multiplier)) as nat)
  }

  /** Every multiplier of at most four decimals, as the nearest f64, becomes its exact fixed-point value. */
  lemma FourDecimalsExact(fl: Rounding, k: nat, multiplier: real)
    requires RoundsF64(fl) && k <= 0x4_0000_0000_0000 && multiplier == fl(k as real / GAS_SCALE as real)
    ensures MultiplierToFixed(fl, multiplier) == k
  {
    if k > 0 {
      var exact := k as real / GAS_SCALE as real;
      assert exact - exact * UNIT_ROUNDOFF <= multiplier <= exact + exact * UNIT_ROUNDOFF;
      var product := multiplier * GAS_SCALE as real;
      assert k as real - k as real * UNIT_ROUNDOFF <= product <= k as real + k as real * UNIT_ROUNDOFF;
      var scaled := fl(product);
      assert product - product * UNIT_ROUNDOFF <= scaled <= product + product * UNIT_ROUNDOFF;
      assert k as real - 0.5 < scaled < k as real + 0.5;
    }
  }

  lemma FixedMonotone(fl: Rounding, m: real, n: real)
    requires RoundsF64(fl) && m <= n
    ensures MultiplierToFixed(fl, m) <= MultiplierToFixed(fl, n)
  {
    assert m * GAS_SCALE as real <= n * GAS_SCALE as real;
  }

  lemma ProductMonotone(a: nat, b: nat, m: nat, n: nat)
    requires a <= b && m <= n
    ensures a * m <= b * n
  {
    assert a * m <= b * m <= b * n;
  }

  lemma QuotientMonotone(x: nat, y: nat)
    requires x <= y
    ensures x / GAS_SCALE <= y / GAS_SCALE
  {}

  /** A larger amount or multiplier never costs less, on either side of the saturation points. */
  lemma GasMonotone(fl: Rounding, base: U64, a: U64, b: U64, m: real, n: real)
    requires RoundsF64(fl) && a <= b && m <= n
    ensures ComputeGas(fl, base, a, m) <= ComputeGas(fl, base, b, n)
  {
    FixedMonotone(fl, m, n);
    var f, g := MultiplierToFixed(fl, m), MultiplierToFixed(fl, n);
    ProductMonotone(a, b, f, g);
    QuotientMonotone(Saturate(a as nat * f as nat), Saturate(b as nat * g as nat));
  }

  /** Saturation is invisible exactly while the product stays under the last full scale unit. */
  lemma GasExactExactly(amount: U64, fixed: U64)
    ensures GasFromAmount(amount, fixed) as nat == amount as nat * fixed as nat / GAS_SCALE
       <==> amount as nat * fixed as nat < (U64_MAX / GAS_SCALE + 1) * GAS_SCALE
  {
    var p := amount as nat * fixed as nat;
    var limit := (U64_MAX / GAS_SCALE + 1) * GAS_SCALE;
    if p < limit {
      assert p > U64_MAX ==> p / GAS_SCALE == U64_MAX / GAS_SCALE;
    } else {
      QuotientMonotone(limit, p);
    }
  }

  /** The total is base plus floor exactly while neither the product nor the sum saturates. */
  lemma TotalExactExactly(fl: Rounding, base: U64, amount: U64, multiplier: real)
    ensures
      var product := amount as nat * MultiplierToFixed(fl, multiplier) as nat;
      ComputeGas(fl, base, amount, multiplier) as nat == base as nat + product / GAS_SCALE
      <==> product < (U64_MAX / GAS_SCALE + 1) * GAS_SCALE && base as nat + product / GAS_SCALE <= U64_MAX
  {
    var fixed := MultiplierToFixed(fl, multiplier);
    GasExactExactly(amount, fixed);
    var p := amount as nat * fixed as nat;
    if p >= (U64_MAX / GAS_SCALE + 1) * GAS_SCALE {
      QuotientMonotone((U64_MAX / GAS_SCALE + 1) * GAS_SCALE, p);
      assert GasFromAmount(amount, fixed) <= U64_MAX / GAS_SCALE;
    }
  }

  /** The fixed-point multiplier is the integer nearest to the scaled one, the upper of two, within 64 bits. */
  lemma FixedIsNearest(fl: Rounding, multiplier: real)
    ensures
      var scaled, fixed := fl(multiplier * GAS_SCALE as real), MultiplierToFixed(fl, multiplier) as real;
      && (scaled <= 0.0 ==> fixed == 0.0)
      && (0.0 <= scaled < U64_MAX as real + 0.5 ==> scaled - 0.5 < fixed <= scaled + 0.5)
      && (scaled >= U64_MAX as real ==> fixed == U64_MAX as real)
  {
  }

  lemma FloorsAdd(x: nat, y: nat)
    ensures x / GAS_SCALE + y / GAS_SCALE <= (x + y) / GAS_SCALE <= x / GAS_SCALE + y / GAS_SCALE + 1
  {}

  /** Splitting a transfer saves at most one unit of gas in rounding, and pays the base again. */
  lemma SplittingCosts(fl: Rounding, base: U64, a: U64, b: U64, multiplier: real)
    requires a as nat + b as nat <= U64_MAX
    ensures ComputeGas(fl, base, a, multiplier) as nat + ComputeGas(fl, base, b, multiplier) as nat + 1
         >= ComputeGas(fl, base, a as nat + b as nat, multiplier) as nat + base as nat
  {
    var f: nat := MultiplierToFixed(fl, multiplier);
    var x: nat, y: nat := a as nat * f, b as nat * f;
    assert (a as nat + b as nat) * f == x + y;
    FloorsAdd(x, y);
    if x + y > U64_MAX && x <= U64_MAX && y <= U64_MAX {
      FloorsAdd(U64_MAX - y, y);
      QuotientMonotone(U64_MAX - y, x);
    }
  }
}
