/** The route table: filtered listing, the baseline lookup, and the
    "clear every baseline flag, then set one" update. */
module PrismaRouteRepository {
  import opened Results
  import opened RouteEntity

  /** Optional listing filters; an absent or falsy field ("" or year 0)
      constrains nothing. */
  datatype RouteFilter = RouteFilter(vesselType: Option<string>, fuelType: Option<string>, year: Option<int>)

  const NoFilter: RouteFilter := RouteFilter(None, None, None)

  predicate Matches(route: Route, f: RouteFilter)
  {
    && (f.vesselType.Some? && f.vesselType.value != "" ==> route.vesselType == f.vesselType.value)
    && (f.fuelType.Some? && f.fuelType.value != "" ==> route.fuelType == f.fuelType.value)
    && (f.year.Some? && f.year.value != 0 ==> route.year == f.year.value)
  }

  /** The routes matching the filter, in table order. */
  function FilterRoutes(routes: seq<Route>, f: RouteFilter): (rs: seq<Route>)
    ensures |rs| <= |routes|
    ensures forall r :: r in rs <==> r in routes && Matches(r, f)
  {
    if routes == [] then []
    else
      var rest := FilterRoutes(routes[1..], f);
      assert forall r :: r in routes <==> r == routes[0] || r in routes[1..];
      if Matches(routes[0], f) then [routes[0]] + rest else rest
  }

  /** Listing without filters returns the whole table, in order. */
  lemma {:induction false} UnfilteredListingIsWholeTable(routes: seq<Route>)
    ensures FilterRoutes(routes, NoFilter) == routes
  {
    if routes != [] {
      UnfilteredListingIsWholeTable(routes[1..]);
      assert [routes[0]] + routes[1..] == routes;
    }
  }

  /** A listing never holds a route more often than the table does. */
  lemma {:induction false} FilterTakesFromTable(routes: seq<Route>, f: RouteFilter)
    ensures multiset(FilterRoutes(routes, f)) <= multiset(routes)
  {
    if routes != [] {
      FilterTakesFromTable(routes[1..], f);
      assert routes == [routes[0]] + routes[1..];
    }
  }

  /** The first route flagged as baseline, if any. */
  function FirstBaseline(routes: seq<Route>): (b: Option<Route>)
    ensures b.Some? ==> b.value in routes && b.value.isBaseline
    ensures b.None? <==> forall r :: r in routes ==> !r.isBaseline
  {
    if routes == [] then None
    else if routes[0].isBaseline then Some(routes[0])
    else
      assert forall r :: r in routes <==> r == routes[0] || r in routes[1..];
      FirstBaseline(routes[1..])
  }

  /** Index of the route with the given primary key, if any. */
  function FindRouteIndex(routes: seq<Route>, id: int): (k: Option<nat>)
    ensures k.Some? ==> k.value < |routes| && routes[k.value].id == id
    ensures k.None? ==> forall i :: 0 <= i < |routes| ==> routes[i].id != id
  {
    if routes == [] then None
    else if routes[0].id == id then Some(0)
    else
      match FindRouteIndex(routes[1..], id)
      case None => None
      case Some(j) => Some(j + 1)
  }

  /** Route ids are primary keys. */
  ghost predicate UniqueIds(routes: seq<Route>)
  {
    forall i, j :: 0 <= i < j < |routes| ==> routes[i].id != routes[j].id
  }

  function ClearedBaselines(routes: seq<Route>): seq<Route>
  {
    seq(|routes|, i requires 0 <= i < |routes| => routes[i].(isBaseline := false))
  }

  class RouteRepository {
    var routes: seq<Route>

    ghost predicate Valid()
      reads this
    {
      UniqueIds(routes)
    }

    constructor (routes: seq<Route>)
      requires UniqueIds(routes)
      ensures Valid() && this.routes == routes
    {
      this.routes := routes;
    }

    /** The routes matching the filter; without filters, the whole table in order. */
    function GetAll(f: RouteFilter): (rs: seq<Route>)
      reads this
      ensures forall r :: r in rs <==> r in routes && Matches(r, f)
      ensures f == NoFilter ==> rs == routes
    {
      UnfilteredListingIsWholeTable(routes);
      FilterRoutes(routes, f)
    }

    /** The first route flagged as baseline, or None when no route is. */
    function GetBaseline(): (b: Option<Route>)
      reads this
      ensures b.Some? ==> b.value in routes && b.value.isBaseline
      ensures b.None? <==> forall r :: r in routes ==> !r.isBaseline
    {
      FirstBaseline(routes)
    }

    /** Clears the baseline flag on every route, then sets it on route `id`.
        There is no transaction: with no such route the clearing stays. */
    method SetBaseline(id: int) returns (r: Result<Route>)
      requires Valid()
      modifies this
      ensures Valid()
      ensures |routes| == |old(routes)|
      ensures forall i :: 0 <= i < |routes| ==> routes[i] == old(routes)[i].(isBaseline := routes[i].isBaseline)
      ensures r.Ok? <==> exists i :: 0 <= i < |old(routes)| && old(routes)[i].id == id
      ensures r.Ok? ==> r.value.id == id && r.value.isBaseline && r.value in routes
      ensures r.Ok? ==> forall i :: 0 <= i < |routes| ==> (routes[i].isBaseline <==> routes[i].id == id)
      ensures r.Err? ==> r.error == RouteNotFound(id)
      ensures r.Err? ==> forall i :: 0 <= i < |routes| ==> !routes[i].isBaseline
    {
      routes := ClearedBaselines(routes);
      var k := FindRouteIndex(routes, id);
      if k.None? {
        return Err(RouteNotFound(id));
      }
      var updated := routes[k.value].(isBaseline := true);
      routes := routes[k.value := updated];
      r := Ok(updated);
    }
  }

  /** After a successful SetBaseline exactly one route is the baseline, and
      the baseline lookup returns it. */
  lemma SetBaselineLeavesOneBaseline(routes: seq<Route>, id: int, i: nat)
    requires UniqueIds(routes) && i < |routes| && routes[i].id == id
    requires forall j :: 0 <= j < |routes| ==> (routes[j].isBaseline <==> routes[j].id == id)
    ensures FirstBaseline(routes) == Some(routes[i])
    ensures forall j :: 0 <= j < |routes| && routes[j].isBaseline ==> j == i
  {
    var b := FirstBaseline(routes);
    assert routes[i] in routes;
    var j :| 0 <= j < |routes| && routes[j] == b.value;
  }
}
