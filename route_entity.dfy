/** A voyage record and the FuelEU Maritime compliance-balance formulas
    (Regulation (EU) 2023/1805): energy in scope, compliance balance (CB),
    compliance, and the percent difference against a baseline route. */
module RouteEntity {
  import opened Results

  datatype Route = Route(
    id: int,
    routeId: string,
    year: int,
    vesselType: string,
    fuelType: string,
    fuelConsumption: real,  // tonnes
    distance: real,         // km
    totalEmissions: real,   // tonnes CO2
    ghgIntensity: real,     // gCO2e / MJ
    isBaseline: bool)

  /** Regulatory GHG-intensity target, gCO2e/MJ. */
  const TargetIntensity: real := 89.3368
  /** Energy content used for every fuel, MJ per tonne. */
  const EnergyPerTonne: real := 41000.0

  /** JavaScript's Math.round: the nearest integer, halves rounded up. */
  function Round(x: real): (n: int)
    ensures n as real - 0.5 <= x < n as real + 0.5
  {
    (x + 0.5).Floor
  }

  lemma RoundOfInteger(n: int)
    ensures Round(n as real) == n
  {
  }

  /** Percent difference of a route's intensity against the baseline's;
      None where the division by the baseline intensity has no finite value. */
  function PercentDiff(route: Route, baseline: Route): (r: Option<real>)
    ensures r.None? <==> baseline.ghgIntensity == 0.0
    ensures r.Some? ==> r.value * baseline.ghgIntensity == (route.ghgIntensity - baseline.ghgIntensity) * 100.0
  {
    if baseline.ghgIntensity == 0.0 then None
    else Some((route.ghgIntensity - baseline.ghgIntensity) / baseline.ghgIntensity * 100.0)
  }

  /** Energy in scope, MJ: positive exactly when fuel was burnt. */
  function EnergyInScope(fuelConsumption: real): (e: real)
    ensures e > 0.0 <==> fuelConsumption > 0.0
    ensures e == 0.0 <==> fuelConsumption == 0.0
  {
    fuelConsumption * EnergyPerTonne
  }

  /** Compliance balance in gCO2e: positive is a surplus, negative a deficit.
      With fuel burnt, its sign is the sign of the distance below the target
      intensity; without fuel it is zero. */
  function ComplianceBalance(route: Route): (cb: real)
    ensures route.fuelConsumption > 0.0 ==> (cb > 0.0 <==> route.ghgIntensity < TargetIntensity)
    ensures route.fuelConsumption > 0.0 ==> (cb < 0.0 <==> route.ghgIntensity > TargetIntensity)
    ensures route.fuelConsumption == 0.0 || route.ghgIntensity == TargetIntensity ==> cb == 0.0
  {
    var energy := EnergyInScope(route.fuelConsumption);
    var gap := TargetIntensity - route.ghgIntensity;
    ProductSign(gap, energy);
    gap * energy
  }

  /** A route that burnt fuel is compliant exactly when its intensity is at
      or below the target. */
  predicate IsCompliant(route: Route): (b: bool)
    ensures route.fuelConsumption > 0.0 ==> (b <==> route.ghgIntensity <= TargetIntensity)
  {
    var cb := ComplianceBalance(route);
    cb >= 0.0
  }

  /** Against a positive factor a product keeps the sign of the other factor. */
  lemma ProductSign(x: real, y: real)
    ensures y > 0.0 ==> (x * y > 0.0 <==> x > 0.0) && (x * y < 0.0 <==> x < 0.0)
  {
    if y > 0.0 {
      if x > 0.0 {
        PositiveProduct(x, y);
      } else if x < 0.0 {
        PositiveProduct(-x, y);
      }
    }
  }

  lemma PositiveProduct(x: real, y: real)
    requires x > 0.0 && y > 0.0
    ensures x * y > 0.0 && (-x) * y < 0.0
  {
  }

  /** The baseline compared with itself differs by zero percent. */
  lemma PercentDiffOfBaselineIsZero(baseline: Route)
    requires baseline.ghgIntensity != 0.0
    ensures PercentDiff(baseline, baseline) == Some(0.0)
  {
  }

  /** Against a baseline of positive intensity, the percent difference has
      the sign of the intensity difference. */
  lemma PercentDiffSign(route: Route, baseline: Route)
    requires baseline.ghgIntensity > 0.0
    ensures PercentDiff(route, baseline).Some?
    ensures PercentDiff(route, baseline).value > 0.0 <==> route.ghgIntensity > baseline.ghgIntensity
    ensures PercentDiff(route, baseline).value < 0.0 <==> route.ghgIntensity < baseline.ghgIntensity
  {
    var d := route.ghgIntensity - baseline.ghgIntensity;
    var b := baseline.ghgIntensity;
    var q := d / b;
    assert q * b == d;
    if d > 0.0 {
      assert q > 0.0 by {
        if q <= 0.0 { NonPositiveTimesPositive(q, b); }
      }
    } else if d < 0.0 {
      assert q < 0.0 by {
        if q >= 0.0 { NonNegativeTimesPositive(q, b); }
      }
    } else {
      assert q == 0.0;
    }
  }

  lemma NonPositiveTimesPositive(q: real, b: real)
    requires q <= 0.0 && b > 0.0
    ensures q * b <= 0.0
  {
  }

  lemma NonNegativeTimesPositive(q: real, b: real)
    requires q >= 0.0 && b > 0.0
    ensures q * b >= 0.0
  {
  }

  /** The first seeded route: 91.0 gCO2e/MJ over 5000 t of fuel. */
  lemma SeededDeficitRoute(route: Route)
    requires route.ghgIntensity == 91.0 && route.fuelConsumption == 5000.0
    ensures EnergyInScope(route.fuelConsumption) == 205000000.0
    ensures Round(ComplianceBalance(route)) == -340956000
    ensures !IsCompliant(route)
  {
    assert ComplianceBalance(route) == -340956000.0;
  }
}
