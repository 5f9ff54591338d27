# Transit stops, routes and viewport geometry

This project models the core data model of a bus-network client. Three parts are modelled:

- **Route**: a bus line with a route number and a display name. It holds an ordered list of stops with no duplicates and a list of route patterns. A route pattern is a named directional variant of the route. Patterns are looked up by name and created when missing. Adding or removing a stop also updates the stop's own set of serving routes.
- **StopManager**: the registry of all known stops, keyed by stop id. A stop is created the first time its id is looked up, and it is filled in later with its real name and location. The registry also keeps one selected stop, which can only be set to a registered stop. It answers "which stop is nearest to this point, within RADIUS = 10000 m?".
- **Geometry**: the point-in-rectangle test used to cull the map viewport, the slope of a line, and the endpoint short-circuit of the segment–rectangle test.

Files and modules:

- `geometry.dfy` (`Geometry`): the `LatLon` value type, the rectangle and interval tests, the slope, and lemmas about them.
- `stop.dfy` (`Stops`): a minimal `Stop` class. Its `id` is a constant and is its identity. Its `name` and `locn` are mutable, and `routes` is the set of numbers of the routes serving it. The module also holds predicates and lemmas about sequences of stops compared by id: `HasId`, `DistinctIds`, and `RemoveId`, which removes the first stop with a given id the way removal from a linked list does.
- `route.dfy` (`Routes`): the `RoutePattern` and `Route` classes. `Route.Valid()` is the invariant that no stop id and no pattern name appears twice. Every mutating method keeps it.
- `stop_manager.dfy` (`StopManagers`): the `StopManager` class. It holds `stopMap: map<int, Stop>`, the iteration order `order: seq<Stop>` and `selected: Stop?`. `Valid()` ties the map and the order together: every key maps to the stop with that id, and `order` lists each registered stop exactly once.

Modelling choices:

- Equality. Stops are equal when their ids are equal, routes when their numbers are, and route patterns when their names are. The id, number and pattern name are `const` fields.
- Serving routes. A stop records the routes serving it by route number. This matches route equality, which compares numbers only.
- Iteration order. The original registry is a hash map, whose iteration order is unspecified. The model iterates in insertion order. Every property of the nearest-stop scan is stated relative to `order`, so it holds for any order.
- Distance. The great-circle distance is a function parameter `dist: (LatLon, LatLon) -> real`. The scan uses it exactly as the original does, as `dist(pt, stop.locn)`.
- Real arithmetic. Coordinates and distances are exact `real`s.
- Selection errors. `setSelected` raises an exception in the original. Here it returns `Outcome.Fail(NoSuchStop(id, name))`, and the selection stays unchanged.
- Equality inside `setSelected`. The original uses `containsValue`, which compares stops with `Stop.equals`, so by id. The stop that gets selected is the argument itself. It may be a different object from the registered stop with that id.
- `removeStop` acts on two different stops. It removes the list's first stop with the argument's id, but it unregisters the route from the argument stop. The model does the same.
- The selected stop after `clearStops`. `clearStops` does not touch `selected`, so after it the selected stop may no longer be registered. `StopManager.ClearStops` keeps this behaviour as written.
- Source files not in this model. `Stop.java`, `RoutePattern.java`, `LatLon.java` and `SphericalGeometry.java` are not part of this model. Three behaviours from them are assumed: `Stop.addRoute`/`removeRoute` act as set insertion and removal, `Stop.equals` compares ids, and `RoutePattern.equals` compares names. In addition, a new `Stop` starts with an empty route set, and the `Stop` and `RoutePattern` constructors store their arguments.

## Model

| member | source | states |
|---|---|---|
| Geometry.Between | src/ca/ubc/cs/cpsc210/translink/util/Geometry.java:64-74 | a value lies in the interval only if the lower bound is at most the upper; both bounds belong to a non-empty interval (closed interval) |
| Geometry.RectangleContainsPoint | src/ca/ubc/cs/cpsc210/translink/util/Geometry.java:7-18 | contained iff se.lat <= p.lat <= nw.lat and nw.lon <= p.lon <= se.lon, boundary included |
| Geometry.CornersContained | src/ca/ubc/cs/cpsc210/translink/util/Geometry.java:7-18 | a well-formed rectangle contains its own north-west and south-east corners |
| Geometry.InvertedRectangleIsEmpty | src/ca/ubc/cs/cpsc210/translink/util/Geometry.java:14-18 | if se.lat > nw.lat or nw.lon > se.lon, no point is contained |
| Geometry.NonEmptyIffWellFormed | src/ca/ubc/cs/cpsc210/translink/util/Geometry.java:14-18 | a rectangle containing any point is well formed and contains both corners |
| Geometry.CalculateSlope | src/ca/ubc/cs/cpsc210/translink/util/Geometry.java:52-62 | for x1 != x2, slope times run equals rise: k * (x2 - x1) == y2 - y1 |
| Geometry.SlopeIsSymmetric | src/ca/ubc/cs/cpsc210/translink/util/Geometry.java:32-42 | swapping the two points (as the two branches do) gives the same slope |
| Geometry.SlopeInterceptFitsBothPoints | src/ca/ubc/cs/cpsc210/translink/util/Geometry.java:33-34 | the line k * x + b with b = y1 - k * x1 passes through both points |
| Geometry.SlopeOfSampleSegment | src/ca/ubc/cs/cpsc210/translink/util/Geometry.java:60-62 | the slope from (0, 0) to (2, 4) is 2 |
| Geometry.RectangleIntersectsLine | src/ca/ubc/cs/cpsc210/translink/util/Geometry.java:20-31 | true whenever src or dst is contained; otherwise exactly the outcome of the sampling loop |
| Geometry.CornerSegmentIntersects | src/ca/ubc/cs/cpsc210/translink/util/Geometry.java:28-31 | a segment starting or ending at a corner of a well-formed rectangle intersects it |
| Stops.Stop.constructor | src/ca/ubc/cs/cpsc210/translink/model/StopManager.java:67 | a new stop has the given id, name and location and serves no routes |
| Stops.Stop.AddRoute | src/ca/ubc/cs/cpsc210/translink/model/Route.java:73 | the route number is added to the stop's routes; adding a present route changes nothing |
| Stops.Stop.RemoveRoute | src/ca/ubc/cs/cpsc210/translink/model/Route.java:85 | the route number is removed from the stop's routes; removing an absent one changes nothing |
| Stops.Stop.SetName | src/ca/ubc/cs/cpsc210/translink/model/StopManager.java:81 | the stop's name becomes the given one, nothing else changes |
| Stops.Stop.SetLocn | src/ca/ubc/cs/cpsc210/translink/model/StopManager.java:82 | the stop's location becomes the given one, nothing else changes |
| Stops.HasIdAppend | src/ca/ubc/cs/cpsc210/translink/model/Route.java:70-75 | after appending t, a stop with an id is present iff it was before or t has that id |
| Stops.AppendKeepsDistinct | src/ca/ubc/cs/cpsc210/translink/model/Route.java:65-75 | appending a stop whose id is absent keeps the stop list duplicate-free |
| Stops.DistinctIdsCard | src/ca/ubc/cs/cpsc210/translink/model/StopManager.java:115-117 | a duplicate-free list of stops has as many ids as stops |
| Stops.RemoveAbsentId | src/ca/ubc/cs/cpsc210/translink/model/Route.java:82-88 | removing an id that is absent leaves the list unchanged |
| Stops.RemoveIdSplices | src/ca/ubc/cs/cpsc210/translink/model/Route.java:82-88 | removal cuts out exactly the first stop with the id; the stops before and after keep their order |
| Stops.RemovePresentId | src/ca/ubc/cs/cpsc210/translink/model/Route.java:82-88 | on a duplicate-free list, removing a present id shortens it by one, the id is gone, ids stay distinct, other ids are unaffected |
| Stops.AppendThenRemove | src/ca/ubc/cs/cpsc210/translink/model/Route.java:65-88 | adding a new stop and removing it again restores the stop list |
| Routes.RoutePattern.constructor | src/ca/ubc/cs/cpsc210/translink/model/Route.java:166 | a new pattern has the given name, destination, direction and route |
| Routes.RoutePattern.SetDestination | src/ca/ubc/cs/cpsc210/translink/model/Route.java:170 | the pattern's destination becomes the given one, nothing else changes |
| Routes.RoutePattern.SetDirection | src/ca/ubc/cs/cpsc210/translink/model/Route.java:171 | the pattern's direction becomes the given one, nothing else changes |
| Routes.AppendIfAbsentKeepsDistinct | src/ca/ubc/cs/cpsc210/translink/model/Route.java:54-62 | adding a pattern keeps pattern names distinct and its name is then present |
| Routes.AppendIfAbsentIdempotent | src/ca/ubc/cs/cpsc210/translink/model/Route.java:54-62 | adding the same pattern twice is the same as adding it once |
| Routes.Route.constructor | src/ca/ubc/cs/cpsc210/translink/model/Route.java:23-35 | a new route has the given number, an empty name, no stops and no patterns, and satisfies the invariant |
| Routes.Route.SetName | src/ca/ubc/cs/cpsc210/translink/model/Route.java:46-52 | afterwards GetName() returns the given name |
| Routes.Route.GetName | src/ca/ubc/cs/cpsc210/translink/model/Route.java:142-149 | returns the display name as last set: empty for a new route, the argument after SetName (an accessor; those facts are stated in the constructor's and SetName's contracts) |
| Routes.Route.Equals | src/ca/ubc/cs/cpsc210/translink/model/Route.java:114-125 | two routes are equal iff the other is non-null and has the same number |
| Routes.EqualsIsEquivalence | src/ca/ubc/cs/cpsc210/translink/model/Route.java:114-134 | route equality is reflexive, symmetric and transitive |
| Routes.Route.GetStops | src/ca/ubc/cs/cpsc210/translink/model/Route.java:90-97 | the returned snapshot has no duplicate stop and holds exactly the route's stop ids |
| Routes.Route.GetPatterns | src/ca/ubc/cs/cpsc210/translink/model/Route.java:200-207 | the returned snapshot has distinct pattern names and holds exactly the route's pattern names |
| Routes.Route.HasStop | src/ca/ubc/cs/cpsc210/translink/model/Route.java:99-112 | true iff some stop of the route has the given stop's id |
| Routes.Route.AddStop | src/ca/ubc/cs/cpsc210/translink/model/Route.java:65-75 | an absent stop is appended and gets this route's number; a present one changes nothing; no duplicates afterwards |
| Routes.Route.RemoveStop | src/ca/ubc/cs/cpsc210/translink/model/Route.java:77-88 | a present stop is cut out (others in order) and loses this route's number; an absent one changes nothing |
| Routes.Route.AddPattern | src/ca/ubc/cs/cpsc210/translink/model/Route.java:54-62 | the pattern is appended unless an equal (same-name) one is present; names stay distinct |
| Routes.Route.GetPatternUpdating | src/ca/ubc/cs/cpsc210/translink/model/Route.java:156-179 | returns the pattern with the name and exactly the given destination and direction; an existing one is updated in place with the list unchanged, otherwise exactly one fresh pattern is appended; other patterns are untouched |
| Routes.Route.GetPattern | src/ca/ubc/cs/cpsc210/translink/model/Route.java:181-198 | returns the existing pattern with the name, unchanged; otherwise appends a fresh one with empty destination and direction |
| StopManagers.FirstNearestIsUnique | src/ca/ubc/cs/cpsc210/translink/model/StopManager.java:132-143 | at most one index is the first nearest stop within the radius, so the answer is determined |
| StopManagers.NearestExistsUnlessNoneWithin | src/ca/ubc/cs/cpsc210/translink/model/StopManager.java:126-143 | a first nearest stop exists iff some stop is closer than RADIUS |
| StopManagers.NearerOfTwoIsFound | src/ca/ubc/cs/cpsc210/translink/model/StopManager.java:126-143 | of stops at 500 m and 2000 m the nearer is chosen in either order; stops at 10000 m and beyond give none |
| StopManagers.Distances | src/ca/ubc/cs/cpsc210/translink/model/StopManager.java:136 | the i-th distance is dist(pt, location of the i-th stop) |
| StopManagers.StopManager.constructor | src/ca/ubc/cs/cpsc210/translink/model/StopManager.java:27-33 | a new registry is empty with no selected stop |
| StopManagers.StopManager.GetSelected | src/ca/ubc/cs/cpsc210/translink/model/StopManager.java:49-51 | returns the recorded selection: null for a new registry and after ClearSelectedStop, the argument after a successful SetSelected (an accessor; those facts are stated in the contracts of the constructor, SetSelected and ClearSelectedStop) |
| StopManagers.StopManager.Register | src/ca/ubc/cs/cpsc210/translink/model/StopManager.java:67 | the `stopMap.put` of both lookups (also line 86): the map gains the stop under its id, the iteration order gains it at the end, and the registry invariant is kept |
| StopManagers.NearestInEmptyRegistry | src/ca/ubc/cs/cpsc210/translink/model/StopManager.java:126-143 | the scan over a new, empty registry returns null for any query point and distance |
| StopManagers.NearerOfTwoScanned | src/ca/ubc/cs/cpsc210/translink/model/StopManager.java:126-143 | after registering stops at 500 m and 2000 m from the query point, the scan returns the nearer, first-registered stop |
| StopManagers.NoneScannedBeyondRadius | src/ca/ubc/cs/cpsc210/translink/model/StopManager.java:126-143 | after registering two stops 12000 m from the query point, the scan returns null |
| StopManagers.LookupIsStable | src/ca/ubc/cs/cpsc210/translink/model/StopManager.java:53-89 | two lookups of an id and a named lookup after them return the same object, which is the one registered under that id |
| StopManagers.StopManager.GetStopWithId | src/ca/ubc/cs/cpsc210/translink/model/StopManager.java:53-70 | returns the registered stop for the id unchanged, or registers a fresh one named "" at (49.263050, -123.243314); the count grows by at most one, other entries untouched |
| StopManagers.StopManager.GetStopWithIdNamed | src/ca/ubc/cs/cpsc210/translink/model/StopManager.java:72-89 | returns the stop for the id with exactly the given name and location, overwritten in place or created; no other stop changes |
| StopManagers.StopManager.ContainsValue | src/ca/ubc/cs/cpsc210/translink/model/StopManager.java:97-98 | some registered stop equals s iff s's id is a key |
| StopManagers.StopManager.SetSelected | src/ca/ubc/cs/cpsc210/translink/model/StopManager.java:91-101 | fails with NoSuchStop and keeps the selection iff no registered stop has s's id; otherwise GetSelected() is s |
| StopManagers.StopManager.ClearSelectedStop | src/ca/ubc/cs/cpsc210/translink/model/StopManager.java:103-108 | GetSelected() is null afterwards; the map is untouched |
| StopManagers.StopManager.GetNumStops | src/ca/ubc/cs/cpsc210/translink/model/StopManager.java:110-117 | the map's size equals the number of stops the iteration visits |
| StopManagers.StopManager.KeysAreOrderIds | src/ca/ubc/cs/cpsc210/translink/model/StopManager.java:146-149 | the registered ids are exactly the ids of the iterated stops |
| StopManagers.StopManager.ClearStops | src/ca/ubc/cs/cpsc210/translink/model/StopManager.java:119-124 | afterwards GetNumStops() is 0; the selection is not touched |
| StopManagers.StopManager.AllStops | src/ca/ubc/cs/cpsc210/translink/model/StopManager.java:145-149 | iteration visits every registered stop exactly once and nothing else |
| StopManagers.StopManager.FindNearestTo | src/ca/ubc/cs/cpsc210/translink/model/StopManager.java:126-143 | null iff every stop is at least RADIUS away (in particular when empty); otherwise a registered stop closer than RADIUS, no stop strictly closer, and the first in iteration order among equally close ones |

## Left out

- The singleton mechanics of `getInstance`: the model works with one explicitly constructed `StopManager`. `findNearestTo` is static in the original and scans the singleton; here it is an instance method.
- `SphericalGeometry.distanceBetween` (haversine in floating point): it is the parameter `dist`, with no properties assumed.
- The sampling loop of `rectangleIntersectsLine` (Geometry.java:32-48): it steps in floating-point increments of 0.000001 and divides by zero for vertical segments. Its outcome is the parameter `sampledHit`.
- Geometry.CalculateSlope: requires x1 != x2. The original divides by zero there and yields an IEEE infinity or NaN.
- IEEE double behaviour in general (rounding, NaN, infinities): all coordinates and distances are exact reals.
- `HashMap` iteration order: the model uses insertion order. The nearest-stop properties are stated for whatever order `order` holds.
- `null` arguments (for example `setSelected(null)`, which throws a NullPointerException while building the message): Dafny's `Stop` is non-null, so these calls cannot be made in the model.
- The text of the `StopException` message: the error instead carries the stop's id and name.
- `Route.iterator` (Route.java:136-140): it walks the same `stops` list that `getStops` returns. Its `Iterator.remove`, which deletes a stop from `stops` in place without calling `stop.removeRoute`, is not modelled.
- `getNumber`, `toString` and `hashCode`: they are accessors or formatting.
- Live views: `getStops` and `getPatterns` return unmodifiable views of the Java lists, and `StopManager.iterator` iterates the live map. Later `addStop`, `removeStop`, `addPattern` or registry changes show through them. `Routes.Route.GetStops`, `Routes.Route.GetPatterns` and `StopManagers.StopManager.AllStops` return value snapshots of the current sequence, so that aliasing is not captured.
- Arrivals, the Stop's arrival list, and `RouteManager`: the operations modelled here do not use them.
- The JSON parsers `StopParser` and `ArrivalsParser`: their behaviour is the JSON library's field access and exception flow, plus file I/O.
