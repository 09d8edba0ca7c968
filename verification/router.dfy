/** The flat `Router` of xero2/route.py. Its `routes` dictionary is a class
    attribute mutated in place, so every instance reads and writes the same
    table: the model threads that one table through every call and has no
    per-instance state at all. */
module FlatRouter {
  import opened Results

  type Routes = map<string, string>

  datatype RouteError = RouteInvalid | RouteNotFound

  /** `validate_route`: non-empty and starting with a slash. */
  predicate ValidRoute(route: string) {
    |route| > 0 && route[0] == '/'
  }

  /** `set`: rejects an invalid route with "Route is invalid" and otherwise
      binds the route to the response. */
  function Set(routes: Routes, route: string, response: string): (r: Result<Routes, RouteError>)
    ensures r.Err? <==> !ValidRoute(route)
    ensures r.Err? ==> r.error == RouteInvalid
    ensures r.Ok? ==> route in r.value && r.value[route] == response
    ensures r.Ok? ==> r.value.Keys == routes.Keys + {route}
    ensures r.Ok? ==> forall other :: other in routes && other != route ==> r.value[other] == routes[other]
  {
    if !ValidRoute(route) then Err(RouteInvalid) else Ok(routes[route := response])
  }

  /** `get`: "Route not found" unless the route is bound. A stored response is a
      string and so never compares equal to `False`, so the membership test is
      exactly the dictionary lookup's. */
  function Get(routes: Routes, route: string): (r: Result<string, RouteError>)
    ensures r.Ok? <==> route in routes
    ensures r.Ok? ==> r.value == routes[route]
    ensures r.Err? ==> r.error == RouteNotFound
  {
    if route !in routes then Err(RouteNotFound) else Ok(routes[route])
  }

  /** A successful `set` followed by `get` returns the response just set, and a
      later `set` of the same route overwrites it; a failed `set` leaves the
      table as it was, so a `get` afterwards answers as before. */
  lemma SetThenGet(routes: Routes, route: string, v1: string, v2: string, other: string)
    ensures ValidRoute(route) ==> Get(Set(routes, route, v1).value, route) == Ok(v1)
    ensures ValidRoute(route) ==>
      Get(Set(Set(routes, route, v1).value, route, v2).value, route) == Ok(v2)
    ensures other != route && Set(routes, route, v1).Ok? ==>
      Get(Set(routes, route, v1).value, other) == Get(routes, other)
  {
  }

  /** The validation cases of xero2/route_test.py: the empty route and a route
      without the leading slash are invalid; "/foo" can be set and read back. */
  lemma RouteExamples()
    ensures !ValidRoute("") && !ValidRoute("badroute") && ValidRoute("/foo")
    ensures Set(map[], "badroute", "bar") == Err(RouteInvalid)
    ensures Get(Set(map[], "/foo", "bar").value, "/foo") == Ok("bar")
    ensures Get(map[], "/nonexistent") == Err(RouteNotFound)
  {
  }
}
