/** The registry of all known stops, keyed by stop id, with one optionally
    selected stop and a nearest-stop query. */
module StopManagers {
  import opened Geometry
  import opened Stops

  /** Stops farther than this many metres are never "nearest". */
  const RADIUS: real := 10000.0

  /** Where a stop created from its id alone is placed until its real location is known. */
  const DefaultLocn: LatLon := LatLon(49.263050, -123.243314)

  /** The failure of selecting a stop that is not registered, naming the stop. */
  datatype StopError = NoSuchStop(number: int, name: string)

  datatype Outcome = Pass | Fail(error: StopError)

  /** `k` is the stop the nearest-stop scan of distances `ds` settles on: within
      the radius, no farther than any other stop, and strictly nearer than every
      stop before it. */
  predicate IsFirstNearest(ds: seq<real>, k: int) {
    && 0 <= k < |ds|
    && ds[k] < RADIUS
    && (forall i :: 0 <= i < |ds| ==> ds[k] <= ds[i])
    && (forall i :: 0 <= i < k ==> ds[k] < ds[i])
  }

  /** No distance in `ds` is within the radius. */
  predicate NoneWithinRadius(ds: seq<real>) {
    forall i :: 0 <= i < |ds| ==> ds[i] >= RADIUS
  }

  /** The scan's answer is determined: at most one index is the first nearest. */
  lemma FirstNearestIsUnique(ds: seq<real>, j: int, k: int)
    requires IsFirstNearest(ds, j) && IsFirstNearest(ds, k)
    ensures j == k
  {
  }

  /** Exactly one of the two outcomes of the scan applies to any distances. */
  lemma {:induction false} NearestExistsUnlessNoneWithin(ds: seq<real>)
    ensures NoneWithinRadius(ds) <==> !exists k :: IsFirstNearest(ds, k)
  {
    if ds != [] && !NoneWithinRadius(ds) {
      var init := ds[..|ds| - 1];
      var last := ds[|ds| - 1];
      NearestExistsUnlessNoneWithin(init);
      if NoneWithinRadius(init) {
        assert IsFirstNearest(ds, |ds| - 1);
      } else {
        var k :| IsFirstNearest(init, k);
        if last < ds[k] {
          assert IsFirstNearest(ds, |ds| - 1);
        } else {
          assert IsFirstNearest(ds, k);
        }
      }
    }
  }

  /** Two stops at 500 m and 2000 m: the nearer one is found, in either order. */
  lemma NearerOfTwoIsFound()
    ensures IsFirstNearest([500.0, 2000.0], 0)
    ensures IsFirstNearest([2000.0, 500.0], 1)
    ensures NoneWithinRadius([10000.0, 12000.0])
  {
  }

  /** The distances from `pt` to each stop of `stops`, in order. */
  function Distances(pt: LatLon, dist: (LatLon, LatLon) -> real, stops: seq<Stop>): (ds: seq<real>)
    reads stops
    ensures |ds| == |stops|
    ensures forall i :: 0 <= i < |stops| ==> ds[i] == dist(pt, stops[i].locn)
  {
    seq(|stops|, i reads stops requires 0 <= i < |stops| => dist(pt, stops[i].locn))
  }

  class StopManager {
    var stopMap: map<int, Stop>
    /** The order in which the registry is iterated (the order stops were added). */
    var order: seq<Stop>
    var selected: Stop?

    /** Every key maps to the stop with that id, and `order` lists every
        registered stop exactly once. */
    ghost predicate Valid()
      reads this
    {
      && (forall id :: id in stopMap ==> stopMap[id].id == id)
      && (forall i :: 0 <= i < |order| ==> order[i].id in stopMap && stopMap[order[i].id] == order[i])
      && (forall id :: id in stopMap ==> HasId(order, id))
      && DistinctIds(order)
    }

    constructor ()
      ensures Valid()
      ensures stopMap == map[] && order == [] && selected == null
    {
      stopMap := map[];
      order := [];
      selected := null;
    }

    /** The selected stop, or null when there is none. */
    function GetSelected(): (r: Stop?)
      reads this
      ensures r == selected
    {
      selected
    }

    /** The stop with the given id; if there is none, a stop with an empty name
        and the default location is created and registered. */
    method GetStopWithId(id: int) returns (s: Stop)
      requires Valid()
      modifies this`stopMap, this`order
      ensures Valid()
      ensures id in stopMap && s == stopMap[id] && s.id == id
      ensures GetNumStops() == old(GetNumStops()) + (if old(id in stopMap) then 0 else 1)
      ensures old(id in stopMap) ==> stopMap == old(stopMap) && order == old(order)
      ensures !old(id in stopMap) ==>
                fresh(s) && s.name == "" && s.locn == DefaultLocn && s.routes == {} &&
                stopMap == old(stopMap)[id := s] && order == old(order) + [s]
    {
      if id in stopMap {
        return stopMap[id];
      }
      var t := new Stop(id, "", DefaultLocn);
      Register(t);
      return stopMap[id];
    }

    /** The stop with the given id, holding exactly the given name and location:
        an existing stop is overwritten in place, otherwise one is created. */
    method GetStopWithIdNamed(id: int, name: string, locn: LatLon) returns (s: Stop)
      requires Valid()
      modifies this`stopMap, this`order, stopMap.Values
      ensures Valid()
      ensures id in stopMap && s == stopMap[id] && s.id == id
      ensures s.name == name && s.locn == locn
      ensures GetNumStops() == old(GetNumStops()) + (if old(id in stopMap) then 0 else 1)
      ensures old(id in stopMap) ==>
                stopMap == old(stopMap) && order == old(order) && s.routes == old(s.routes)
      ensures !old(id in stopMap) ==>
                fresh(s) && s.routes == {} &&
                stopMap == old(stopMap)[id := s] && order == old(order) + [s]
      ensures forall t :: t in old(stopMap.Values) && t != s ==>
                t.name == old(t.name) && t.locn == old(t.locn) && t.routes == old(t.routes)
    {
      if id in stopMap {
        stopMap[id].SetName(name);
        stopMap[id].SetLocn(locn);
        return stopMap[id];
      } else {
        var t := new Stop(id, name, locn);
        Register(t);
      }
      return stopMap[id];
    }

    /** Puts a fresh stop under its id, at the end of the iteration order. */
    method Register(t: Stop)
      requires Valid() && t.id !in stopMap
      modifies this`stopMap, this`order
      ensures Valid()
      ensures stopMap == old(stopMap)[t.id := t] && order == old(order) + [t]
    {
      assert !HasId(order, t.id);
      AppendKeepsDistinct(order, t);
      forall id | id in stopMap ensures HasId(order + [t], id) {
        HasIdAppend(order, t, id);
      }
      HasIdAppend(order, t, t.id);
      stopMap := stopMap[t.id := t];
      order := order + [t];
    }

    /** Whether some registered stop equals `s`, i.e. has its id. */
    predicate ContainsValue(s: Stop)
      reads this
      requires Valid()
      ensures ContainsValue(s) <==> s.id in stopMap
    {
      exists id :: id in stopMap && stopMap[id].id == s.id
    }

    /** Selects `s`, or fails with a "no such stop" error and leaves the
        selection as it was when no registered stop equals `s`. */
    method SetSelected(s: Stop) returns (res: Outcome)
      requires Valid()
      modifies this`selected
      ensures res.Fail? <==> s.id !in stopMap
      ensures res.Fail? ==> res.error == NoSuchStop(s.id, s.name) && selected == old(selected)
      ensures res.Pass? ==> selected == s && GetSelected() == s
    {
      if !ContainsValue(s) {
        return Fail(NoSuchStop(s.id, s.name));
      }
      selected := s;
      return Pass;
    }

    method ClearSelectedStop()
      modifies this`selected
      ensures selected == null && GetSelected() == null
    {
      selected := null;
    }

    /** The number of registered stops, which is also how many the iteration visits. */
    function GetNumStops(): (n: nat)
      reads this
      requires Valid()
      ensures n == |order|
    {
      KeysAreOrderIds();
      DistinctIdsCard(order);
      |stopMap|
    }

    lemma KeysAreOrderIds()
      requires Valid()
      ensures stopMap.Keys == IdSet(order)
    {
      forall id | id in stopMap ensures id in IdSet(order) {
        var i :| 0 <= i < |order| && order[i].id == id;
      }
    }

    /** Removes every stop; the selection is not touched. */
    method ClearStops()
      requires Valid()
      modifies this`stopMap, this`order
      ensures Valid()
      ensures stopMap == map[] && order == [] && GetNumStops() == 0
    {
      stopMap := map[];
      order := [];
    }

    /** The registered stops in iteration order. */
    function AllStops(): (r: seq<Stop>)
      reads this
      requires Valid()
      ensures DistinctIds(r)
      ensures forall i :: 0 <= i < |r| ==> r[i].id in stopMap && stopMap[r[i].id] == r[i]
      ensures forall id :: id in stopMap <==> HasId(r, id)
    {
      order
    }

    /** The stop nearest to `pt` among those closer than RADIUS, the first in
        iteration order among equally near ones; null if there is none. */
    method FindNearestTo(pt: LatLon, dist: (LatLon, LatLon) -> real) returns (r: Stop?)
      requires Valid()
      ensures r == null <==> NoneWithinRadius(Distances(pt, dist, order))
      ensures r != null ==>
                r.id in stopMap && stopMap[r.id] == r &&
                exists k :: 0 <= k < |order| && order[k] == r && IsFirstNearest(Distances(pt, dist, order), k)
    {
      ghost var ds := Distances(pt, dist, order);
      ghost var best := -1;
      var temp: Stop? := null;
      var distanceTmp := RADIUS + 1.0;
      for i := 0 to |order|
        invariant temp == null ==> best == -1 && distanceTmp == RADIUS + 1.0 && NoneWithinRadius(ds[..i])
        invariant temp != null ==>
                    0 <= best < i && order[best] == temp && distanceTmp == ds[best] &&
                    IsFirstNearest(ds[..i], best)
      {
        var s := order[i];
        var distanceS := dist(pt, s.locn);
        assert ds[..i + 1] == ds[..i] + [distanceS];
        if distanceS < RADIUS && distanceS < distanceTmp {
          distanceTmp := distanceS;
          temp := s;
          best := i;
        }
      }
      assert ds[..|order|] == ds;
      return temp;
    }
  }

  /** Looking up an id twice, and once more with a name and location, yields
      the same object each time: stop identities are stable. */
  method LookupIsStable(m: StopManager, id: int) returns (first: Stop, again: Stop, named: Stop)
    requires m.Valid()
    modifies m, m.stopMap.Values
    ensures m.Valid()
    ensures first == again == named && named.id == id
    ensures id in m.stopMap && m.stopMap[id] == named
  {
    first := m.GetStopWithId(id);
    again := m.GetStopWithId(id);
    named := m.GetStopWithIdNamed(id, "Main St", LatLon(49.26, -123.25));
  }

  /** The nearest-stop scan on an empty registry finds nothing. */
  method NearestInEmptyRegistry(pt: LatLon, dist: (LatLon, LatLon) -> real) returns (r: Stop?)
    ensures r == null
  {
    var m := new StopManager();
    r := m.FindNearestTo(pt, dist);
    assert Distances(pt, dist, m.order) == [];
  }

  /** The distance function of the two-stop scenario: 500 m to the near stop's
      location, 2000 m to anywhere else. */
  function TwoStopDist(p: LatLon, q: LatLon): (d: real)
    ensures d == 500.0 <==> q == LatLon(49.26, -123.24)
  {
    if q == LatLon(49.26, -123.24) then 500.0 else 2000.0
  }

  /** The nearest-stop scan on a registry of two stops, at 500 m and 2000 m
      from the query point, finds the nearer one. */
  method NearerOfTwoScanned(pt: LatLon) returns (near: Stop, far: Stop, found: Stop?)
    ensures found == near && near.id == 1 && far.id == 2
  {
    var m := new StopManager();
    near := m.GetStopWithIdNamed(1, "Near", LatLon(49.26, -123.24));
    far := m.GetStopWithIdNamed(2, "Far", LatLon(49.30, -123.10));
    assert m.order == [near, far];
    found := m.FindNearestTo(pt, TwoStopDist);
    ghost var ds := Distances(pt, TwoStopDist, m.order);
    assert ds[0] == 500.0 && ds[1] == 2000.0;
    assert IsFirstNearest(ds, 0);
    ghost var k :| 0 <= k < |m.order| && m.order[k] == found && IsFirstNearest(ds, k);
    FirstNearestIsUnique(ds, 0, k);
  }

  /** Stops that are all RADIUS or more away are never found. */
  method NoneScannedBeyondRadius(pt: LatLon) returns (a: Stop, b: Stop, found: Stop?)
    ensures a.id == 1 && b.id == 2 && found == null
  {
    var m := new StopManager();
    a := m.GetStopWithIdNamed(1, "Near", LatLon(49.26, -123.24));
    b := m.GetStopWithIdNamed(2, "Far", LatLon(49.30, -123.10));
    found := m.FindNearestTo(pt, (p: LatLon, q: LatLon) => 12000.0);
  }
}
