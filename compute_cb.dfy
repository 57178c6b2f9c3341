/** Computing and caching a ship's base CB for a year: the routes whose
    numeric id equals the ship id (read as a number) and whose year matches
    are summed, the sum is rounded, and the result is upserted. */
module ComputeCB {
  import opened Results
  import opened RouteEntity
  import opened PrismaRouteRepository
  import opened PrismaComplianceRepository

  datatype ComputeResult = ComputeResult(shipId: string, year: int, cb: int)

  predicate AllDigits(s: string)
  {
    forall i :: 0 <= i < |s| ==> '0' <= s[i] <= '9'
  }

  function DigitsValue(s: string): nat
    requires AllDigits(s)
  {
    if s == [] then 0
    else 10 * DigitsValue(s[..|s| - 1]) + (s[|s| - 1] - '0') as nat
  }

  /** JavaScript's Number(shipId) for decimal digit strings (the empty string
      reads as 0); any other string reads as NaN, which equals no id. */
  function ShipNumber(shipId: string): Option<int>
  {
    if AllDigits(shipId) then Some(DigitsValue(shipId)) else None
  }

  predicate IsShipRoute(route: Route, shipNumber: Option<int>, year: int)
  {
    shipNumber == Some(route.id) && route.year == year
  }

  /** The routes of the ship for the year, in table order, each as often as
      the table holds it. */
  function ShipRoutes(routes: seq<Route>, shipNumber: Option<int>, year: int): (rs: seq<Route>)
    ensures forall r :: multiset(rs)[r] == if IsShipRoute(r, shipNumber, year) then multiset(routes)[r] else 0
  {
    if routes == [] then []
    else
      var rest := ShipRoutes(routes[1..], shipNumber, year);
      assert routes == [routes[0]] + routes[1..];
      if IsShipRoute(routes[0], shipNumber, year) then [routes[0]] + rest else rest
  }

  /** Sum of the routes' compliance balances, added in list order. */
  function TotalCB(routes: seq<Route>): real
  {
    if routes == [] then 0.0
    else TotalCB(routes[..|routes| - 1]) + ComplianceBalance(routes[|routes| - 1])
  }

  /** The accumulation loop over the ship's routes. */
  method SumComplianceBalances(shipRoutes: seq<Route>) returns (totalCB: real)
    ensures totalCB == TotalCB(shipRoutes)
  {
    totalCB := 0.0;
    for i := 0 to |shipRoutes|
      invariant totalCB == TotalCB(shipRoutes[..i])
    {
      assert shipRoutes[..i + 1][..i] == shipRoutes[..i];
      totalCB := totalCB + ComplianceBalance(shipRoutes[i]);
    }
    assert shipRoutes[..|shipRoutes|] == shipRoutes;
  }

  /** Computes the base CB of (shipId, year) from the route table and upserts it.
      With no matching route nothing is written. */
  method ComputeCB(complianceRepo: ComplianceRepository, routeRepo: RouteRepository, shipId: string, year: int)
    returns (r: Result<ComputeResult>)
    modifies complianceRepo
    ensures var matches := ShipRoutes(routeRepo.routes, ShipNumber(shipId), year);
            matches == [] ==> r == Err(NoRoutesForShip(shipId, year))
                              && complianceRepo.records == old(complianceRepo.records)
                              && complianceRepo.nextId == old(complianceRepo.nextId)
    ensures var matches := ShipRoutes(routeRepo.routes, ShipNumber(shipId), year);
            matches != [] ==> r == Ok(ComputeResult(shipId, year, Round(TotalCB(matches))))
    ensures r.Ok? ==> complianceRepo.records
                      == Upserted(old(complianceRepo.records), old(complianceRepo.nextId), shipId, year, r.value.cb)
    ensures r.Ok? ==> complianceRepo.nextId
                      == NextIdAfterUpsert(old(complianceRepo.records), old(complianceRepo.nextId), shipId, year)
    ensures r.Ok? ==> complianceRepo.GetCB(shipId, year).Some?
                      && complianceRepo.GetCB(shipId, year).value.cbGco2eq == r.value.cb
  {
    var routes := routeRepo.GetAll(NoFilter);
    UnfilteredListingIsWholeTable(routeRepo.routes);
    var shipRoutes := ShipRoutes(routes, ShipNumber(shipId), year);
    if |shipRoutes| == 0 {
      return Err(NoRoutesForShip(shipId, year));
    }
    var totalCB := SumComplianceBalances(shipRoutes);
    var cb := Round(totalCB);
    var saved := complianceRepo.UpsertCB(shipId, year, cb);
    r := Ok(ComputeResult(shipId, year, cb));
  }

  /** Computing twice with the route table unchanged leaves the compliance
      table (and its id counter) as one computation left it. */
  lemma ComputeTwiceChangesNothing(routes: seq<Route>, records: seq<ShipCompliance>, nextId: int,
                                   shipId: string, year: int)
    requires ShipRoutes(routes, ShipNumber(shipId), year) != []
    ensures var cb := Round(TotalCB(ShipRoutes(routes, ShipNumber(shipId), year)));
            var once := Upserted(records, nextId, shipId, year, cb);
            var onceId := NextIdAfterUpsert(records, nextId, shipId, year);
            Upserted(once, onceId, shipId, year, cb) == once
            && NextIdAfterUpsert(once, onceId, shipId, year) == onceId
  {
    var cb := Round(TotalCB(ShipRoutes(routes, ShipNumber(shipId), year)));
    UpsertIsIdempotent(records, nextId, shipId, year, cb);
  }

  /** "12" names route 12, "" names route 0, and "1a" names no route. */
  lemma ShipNumberExamples()
    ensures ShipNumber("12") == Some(12)
    ensures ShipNumber("") == Some(0)
    ensures ShipNumber("1a") == None
  {
    assert "12"[..1] == "1";
    assert "1"[..0] == "";
    assert !('0' <= "1a"[1] <= '9');
  }
}
