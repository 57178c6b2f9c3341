/** Comparing every route against the baseline route: percent difference of
    intensity, rounded compliance balance, and the compliance flag. */
module CompareRoutes {
  import opened Results
  import opened RouteEntity
  import opened PrismaRouteRepository

  datatype Comparison = Comparison(
    id: int,
    routeId: string,
    vesselType: string,
    fuelType: string,
    year: int,
    ghgIntensity: real,
    fuelConsumption: real,
    percentDiff: Option<real>,
    complianceBalance: int,
    isCompliant: bool)

  /** One route's comparison: its own fields, the percent difference against
      the baseline, its balance rounded to the gram, and the compliance flag.
      A positive rounded balance is always compliant and a compliant route
      never shows a negative one; a rounded 0 can go either way. */
  function Compare(route: Route, baseline: Route): (c: Comparison)
    ensures CopiesRoute(c, route)
    ensures c.percentDiff == PercentDiff(route, baseline)
    ensures c.complianceBalance as real - 0.5 <= ComplianceBalance(route) < c.complianceBalance as real + 0.5
    ensures c.complianceBalance > 0 ==> c.isCompliant
    ensures c.isCompliant ==> c.complianceBalance >= 0
  {
    var percentDiff := PercentDiff(route, baseline);
    var complianceBalance := ComplianceBalance(route);
    Comparison(route.id, route.routeId, route.vesselType, route.fuelType, route.year,
               route.ghgIntensity, route.fuelConsumption,
               percentDiff, Round(complianceBalance), IsCompliant(route))
  }

  /** The comparison carries the route's identifying and input fields unchanged. */
  predicate CopiesRoute(c: Comparison, route: Route)
  {
    && c.id == route.id && c.routeId == route.routeId
    && c.vesselType == route.vesselType && c.fuelType == route.fuelType
    && c.year == route.year && c.ghgIntensity == route.ghgIntensity
    && c.fuelConsumption == route.fuelConsumption
  }

  /** One comparison per route of the table, in table order; fails without a baseline. */
  function CompareRoutes(repo: RouteRepository): (r: Result<seq<Comparison>>)
    reads repo
    ensures r.Err? <==> repo.GetBaseline().None?
    ensures r.Err? ==> r.error == NoBaseline
    ensures r.Ok? ==> |r.value| == |repo.routes|
    ensures r.Ok? ==> forall i :: 0 <= i < |r.value| ==>
              && CopiesRoute(r.value[i], repo.routes[i])
              && r.value[i].percentDiff == PercentDiff(repo.routes[i], repo.GetBaseline().value)
              && r.value[i].complianceBalance == Round(ComplianceBalance(repo.routes[i]))
              && (r.value[i].isCompliant <==> ComplianceBalance(repo.routes[i]) >= 0.0)
  {
    match repo.GetBaseline()
    case None => Err(NoBaseline)
    case Some(baseline) =>
      var allRoutes := repo.GetAll(NoFilter);
      UnfilteredListingIsWholeTable(repo.routes);
      Ok(seq(|allRoutes|, i requires 0 <= i < |allRoutes| => Compare(allRoutes[i], baseline)))
  }

  /** The baseline route appears in the comparison with a zero percent difference. */
  lemma BaselineComparesAtZero(repo: RouteRepository)
    requires repo.GetBaseline().Some? && repo.GetBaseline().value.ghgIntensity != 0.0
    ensures CompareRoutes(repo).Ok?
    ensures exists i :: 0 <= i < |CompareRoutes(repo).value|
                        && repo.routes[i] == repo.GetBaseline().value
                        && CompareRoutes(repo).value[i].percentDiff == Some(0.0)
  {
    var baseline := repo.GetBaseline().value;
    var i :| 0 <= i < |repo.routes| && repo.routes[i] == baseline;
    PercentDiffOfBaselineIsZero(baseline);
  }

  /** The flag is taken from the unrounded balance: a deficit of under half a
      gram rounds to a balance of 0 yet is reported as not compliant. */
  lemma RoundedBalanceCanHideDeficit(baseline: Route)
    ensures var route := Route(1, "R", 2024, "Container", "HFO", 1.0, 1.0, 1.0, 89.33681, false);
            var c := Compare(route, baseline);
            c.complianceBalance == 0 && !c.isCompliant
  {
    var route := Route(1, "R", 2024, "Container", "HFO", 1.0, 1.0, 1.0, 89.33681, false);
    assert ComplianceBalance(route) == -0.41;
  }
}
