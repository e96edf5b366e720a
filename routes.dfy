/**
 * Compiled routes and the route table (RouteCache.java). A route's path pattern is the
 * ordered list of static text and named dynamic segments produced by Play's route
 * compiler; the table maps the fully-qualified controller method name to its route.
 */
module Routes {
  import opened Wrappers

  /** One segment of a compiled path pattern. */
  datatype PathPart =
    | StaticPart(value: string)
    | DynamicPart(name: string)

  type PathPattern = seq<PathPart>

  /** A compiled route: its HTTP verb as the route file spells it, and its path pattern. */
  datatype Route = Route(verb: string, path: PathPattern)

  /**
   * The route table. The map handed to the constructor is kept as it is; no member
   * changes it (`const`), so every lookup answers from that one map. The map is held as a
   * value: that the caller, or whoever `getAll` hands it to, shares it is not modelled.
   */
  class RouteCache {
    const router: map<string, Route>

    constructor (router: map<string, Route>)
      ensures this.router == router
    {
      this.router := router;
    }

    /** `get`: the route stored under `routeName`, None (Java null) when there is none. */
    function Get(routeName: string): (r: Option<Route>)
      ensures r.Some? <==> routeName in router
      ensures r.Some? ==> r.value == router[routeName]
    {
      if routeName in router then Some(router[routeName]) else None
    }

    /** `exists`: whether `routeName` is a key of the table. */
    function Exists(routeName: string): (b: bool)
      ensures b <==> routeName in router
    {
      routeName in router
    }

    /** `getAll`: the table itself. */
    function GetAll(): map<string, Route> {
      router
    }
  }

  /**
   * The three views of a table agree: a name exists exactly when `get` finds a route, and
   * that route is the one `getAll` holds under the name.
   */
  lemma RouteCacheViewsAgree(c: RouteCache, routeName: string)
    ensures c.Exists(routeName) <==> c.Get(routeName).Some?
    ensures c.Exists(routeName) <==> routeName in c.GetAll()
    ensures c.Get(routeName).Some? ==> c.Get(routeName).value == c.GetAll()[routeName]
  {
  }

  /** A table built from `m` answers every lookup from `m`, and `getAll` gives back `m`. */
  method BuildAndLookUp(m: map<string, Route>, routeName: string) returns (found: Option<Route>, present: bool, all: map<string, Route>)
    ensures present <==> routeName in m
    ensures found == (if routeName in m then Some(m[routeName]) else None)
    ensures all == m
  {
    var cache := new RouteCache(m);
    found := cache.Get(routeName);
    present := cache.Exists(routeName);
    all := cache.GetAll();
  }
}
