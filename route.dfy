/** A bus route: a route number, a display name, an ordered duplicate-free list
    of stops and a list of route patterns keyed by pattern name. */
module Routes {
  import opened Stops

  /** A named directional variant of a route. Its name is its identity; the
      destination and direction are refreshed when the route is re-read. */
  class RoutePattern {
    const name: string
    var destination: string
    var direction: string
    /** The route this pattern belongs to (a back-reference, not an owner). */
    const route: Route

    constructor (name: string, destination: string, direction: string, route: Route)
      ensures this.name == name && this.destination == destination
      ensures this.direction == direction && this.route == route
    {
      this.name := name;
      this.destination := destination;
      this.direction := direction;
      this.route := route;
    }

    method SetDestination(destination: string)
      modifies this`destination
      ensures this.destination == destination
    {
      this.destination := destination;
    }

    method SetDirection(direction: string)
      modifies this`direction
      ensures this.direction == direction
    {
      this.direction := direction;
    }
  }

  /** Some pattern in `ps` has the given name (equality of patterns is by name). */
  predicate HasName(ps: seq<RoutePattern>, name: string) {
    exists i :: 0 <= i < |ps| && ps[i].name == name
  }

  /** No two patterns in `ps` share a name. */
  predicate DistinctNames(ps: seq<RoutePattern>) {
    forall i, j :: 0 <= i < j < |ps| ==> ps[i].name != ps[j].name
  }

  /** `ps` with `p` appended unless a pattern equal to it is already there. */
  function AppendIfAbsent(ps: seq<RoutePattern>, p: RoutePattern): (r: seq<RoutePattern>) {
    if HasName(ps, p.name) then ps else ps + [p]
  }

  /** Adding a pattern keeps the names distinct, and the pattern's name is then present. */
  lemma AppendIfAbsentKeepsDistinct(ps: seq<RoutePattern>, p: RoutePattern)
    requires DistinctNames(ps)
    ensures DistinctNames(AppendIfAbsent(ps, p))
    ensures HasName(AppendIfAbsent(ps, p), p.name)
  {
    if !HasName(ps, p.name) {
      var qs := ps + [p];
      assert qs[|ps|].name == p.name;
      forall i, j | 0 <= i < j < |qs| ensures qs[i].name != qs[j].name {
        if j == |ps| { assert qs[i] == ps[i]; }
      }
    }
  }

  /** Adding the same pattern twice is the same as adding it once. */
  lemma AppendIfAbsentIdempotent(ps: seq<RoutePattern>, p: RoutePattern)
    ensures AppendIfAbsent(AppendIfAbsent(ps, p), p) == AppendIfAbsent(ps, p)
  {
    if !HasName(ps, p.name) {
      assert (ps + [p])[|ps|].name == p.name;
    }
  }

  class Route {
    /** The route number; two routes are equal iff their numbers are equal. */
    const number: string
    var name: string
    var stops: seq<Stop>
    var routePatterns: seq<RoutePattern>

    /** No stop appears twice, and no two patterns share a name. */
    ghost predicate Valid()
      reads this
    {
      DistinctIds(stops) && DistinctNames(routePatterns)
    }

    constructor (number: string)
      ensures Valid()
      ensures this.number == number && name == ""
      ensures stops == [] && routePatterns == []
    {
      this.number := number;
      stops := [];
      routePatterns := [];
      name := "";
    }

    method SetName(name: string)
      modifies this`name
      ensures this.name == name && GetName() == name
    {
      this.name := name;
    }

    /** The display name, as last set (empty for a new route). */
    function GetName(): (r: string)
      reads this
      ensures r == name
    {
      name
    }

    /** Route equality: the same object, or another route with the same number. */
    function Equals(o: Route?): (r: bool)
      ensures r <==> o != null && o.number == number
    {
      if this == o then true
      else if o == null then false
      else number == o.number
    }

    /** The stops in the order they were added (a snapshot of the list). */
    function GetStops(): (r: seq<Stop>)
      reads this
      requires Valid()
      ensures DistinctIds(r)
      ensures forall id :: HasId(r, id) <==> HasId(stops, id)
    {
      stops
    }

    /** The patterns of this route (a snapshot of the list). */
    function GetPatterns(): (r: seq<RoutePattern>)
      reads this
      requires Valid()
      ensures DistinctNames(r)
      ensures forall n :: HasName(r, n) <==> HasName(routePatterns, n)
    {
      routePatterns
    }

    /** Whether some stop of this route equals `stop`, i.e. has its id. */
    method HasStop(stop: Stop) returns (b: bool)
      ensures b <==> HasId(stops, stop.id)
    {
      for i := 0 to |stops|
        invariant forall j :: 0 <= j < i ==> stops[j].id != stop.id
      {
        if stops[i].id == stop.id {
          return true;
        }
      }
      return false;
    }

    /** Appends `stop` and registers this route on it, unless the route
        already has a stop equal to it, in which case nothing changes. */
    method AddStop(stop: Stop)
      requires Valid()
      modifies this`stops, stop`routes
      ensures Valid()
      ensures old(HasId(stops, stop.id)) ==> stops == old(stops) && stop.routes == old(stop.routes)
      ensures !old(HasId(stops, stop.id)) ==>
                stops == old(stops) + [stop] && stop.routes == old(stop.routes) + {number}
      ensures HasId(stops, stop.id)
    {
      var present := HasStop(stop);
      if !present {
        AppendKeepsDistinct(stops, stop);
        HasIdAppend(stops, stop, stop.id);
        stops := stops + [stop];
        stop.AddRoute(number);
      }
    }

    /** Removes the stop equal to `stop` and unregisters this route from
        `stop`; when the route has no such stop nothing changes. */
    method RemoveStop(stop: Stop)
      requires Valid()
      modifies this`stops, stop`routes
      ensures Valid()
      ensures stops == RemoveId(old(stops), stop.id)
      ensures old(HasId(stops, stop.id)) ==>
                |stops| == old(|stops|) - 1 && stop.routes == old(stop.routes) - {number}
      ensures !old(HasId(stops, stop.id)) ==> stops == old(stops) && stop.routes == old(stop.routes)
      ensures !HasId(stops, stop.id)
      ensures forall id :: id != stop.id ==> (HasId(stops, id) <==> old(HasId(stops, id)))
    {
      var present := HasStop(stop);
      if present {
        RemovePresentId(stops, stop.id);
        stops := RemoveId(stops, stop.id);
        stop.RemoveRoute(number);
      } else {
        RemoveAbsentId(stops, stop.id);
      }
    }

    /** Adds `pattern` unless a pattern equal to it (same name) is already there. */
    method AddPattern(pattern: RoutePattern)
      requires Valid()
      modifies this`routePatterns
      ensures Valid()
      ensures routePatterns == AppendIfAbsent(old(routePatterns), pattern)
      ensures HasName(routePatterns, pattern.name)
    {
      AppendIfAbsentKeepsDistinct(routePatterns, pattern);
      if !HasName(routePatterns, pattern.name) {
        routePatterns := routePatterns + [pattern];
      }
    }

    /** The pattern named `patternName`, created and added if there is none;
        in either case its destination and direction become the given ones. */
    method GetPatternUpdating(patternName: string, destination: string, direction: string)
      returns (p: RoutePattern)
      requires Valid()
      modifies this`routePatterns, routePatterns
      ensures Valid()
      ensures p.name == patternName && p.destination == destination && p.direction == direction
      ensures p in routePatterns
      ensures old(HasName(routePatterns, patternName)) ==>
                routePatterns == old(routePatterns) && p in old(routePatterns)
      ensures !old(HasName(routePatterns, patternName)) ==>
                fresh(p) && p.route == this && routePatterns == old(routePatterns) + [p]
      ensures forall q :: q in old(routePatterns) && q != p ==>
                q.destination == old(q.destination) && q.direction == old(q.direction)
    {
      var pattern := new RoutePattern(patternName, destination, direction, this);
      for i := 0 to |routePatterns|
        invariant forall j :: 0 <= j < i ==> routePatterns[j].name != patternName
      {
        var r := routePatterns[i];
        if r.name == patternName {
          r.SetDestination(destination);
          r.SetDirection(direction);
          return r;
        }
      }
      AddPattern(pattern);
      p := pattern;
    }

    /** The pattern named `patternName`, left as it is; if there is none, one
        with empty destination and direction is created and added. */
    method GetPattern(patternName: string) returns (p: RoutePattern)
      requires Valid()
      modifies this`routePatterns
      ensures Valid()
      ensures p.name == patternName && p in routePatterns
      ensures old(HasName(routePatterns, patternName)) ==>
                routePatterns == old(routePatterns) && p in old(routePatterns)
      ensures !old(HasName(routePatterns, patternName)) ==>
                fresh(p) && p.route == this && p.destination == "" && p.direction == "" &&
                routePatterns == old(routePatterns) + [p]
    {
      var pattern := new RoutePattern(patternName, "", "", this);
      for i := 0 to |routePatterns|
        invariant forall j :: 0 <= j < i ==> routePatterns[j].name != patternName
      {
        var r := routePatterns[i];
        if r.name == patternName {
          return r;
        }
      }
      AddPattern(pattern);
      p := pattern;
    }
  }

  /** Route equality is an equivalence relation, as a key of a map or set needs. */
  lemma EqualsIsEquivalence(a: Route, b: Route, c: Route)
    ensures a.Equals(a)
    ensures a.Equals(b) ==> b.Equals(a)
    ensures a.Equals(b) && b.Equals(c) ==> a.Equals(c)
  {
  }
}
