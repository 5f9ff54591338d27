/** A bus stop, reduced to what routes and the stop registry use: an id that is
    its identity, a name and a location that are filled in as richer data
    arrives, and the set of numbers of the routes serving it. Also the facts
    about sequences of stops compared by id that Route and StopManager rely on. */
module Stops {
  import opened Geometry

  class Stop {
    /** The stop number; two stops are equal iff their ids are equal. */
    const id: int
    var name: string
    var locn: LatLon
    /** Numbers of the routes serving this stop (routes are equal iff their
        numbers are). */
    var routes: set<string>

    constructor (id: int, name: string, locn: LatLon)
      ensures this.id == id && this.name == name && this.locn == locn
      ensures routes == {}
    {
      this.id := id;
      this.name := name;
      this.locn := locn;
      routes := {};
    }

    method SetName(name: string)
      modifies this`name
      ensures this.name == name
    {
      this.name := name;
    }

    method SetLocn(locn: LatLon)
      modifies this`locn
      ensures this.locn == locn
    {
      this.locn := locn;
    }

    /** Registers a route on this stop; adding a route already present changes nothing. */
    method AddRoute(number: string)
      modifies this`routes
      ensures routes == old(routes) + {number}
      ensures number in old(routes) ==> routes == old(routes)
    {
      routes := routes + {number};
    }

    /** Unregisters a route; removing an absent route changes nothing. */
    method RemoveRoute(number: string)
      modifies this`routes
      ensures routes == old(routes) - {number}
      ensures number !in old(routes) ==> routes == old(routes)
    {
      routes := routes - {number};
    }
  }

  /** Some stop in `s` has the given id (equality of stops is by id). */
  predicate HasId(s: seq<Stop>, id: int) {
    exists i :: 0 <= i < |s| && s[i].id == id
  }

  /** No two stops in `s` share an id. */
  predicate DistinctIds(s: seq<Stop>) {
    forall i, j :: 0 <= i < j < |s| ==> s[i].id != s[j].id
  }

  /** The set of ids of the stops in `s`. */
  function IdSet(s: seq<Stop>): (ids: set<int>) {
    set i | 0 <= i < |s| :: s[i].id
  }

  /** `s` without its first stop whose id is `id`, the others kept in order:
      what removing a stop from a linked list by equality does. */
  function RemoveId(s: seq<Stop>, id: int): (r: seq<Stop>) {
    if s == [] then []
    else if s[0].id == id then s[1..]
    else [s[0]] + RemoveId(s[1..], id)
  }

  lemma HasIdAppend(s: seq<Stop>, t: Stop, id: int)
    ensures HasId(s + [t], id) <==> HasId(s, id) || t.id == id
  {
    if HasId(s, id) {
      var i :| 0 <= i < |s| && s[i].id == id;
      assert (s + [t])[i].id == id;
    }
    if t.id == id {
      assert (s + [t])[|s|].id == id;
    }
  }

  /** Appending a stop whose id is new keeps the ids distinct. */
  lemma AppendKeepsDistinct(s: seq<Stop>, t: Stop)
    requires DistinctIds(s) && !HasId(s, t.id)
    ensures DistinctIds(s + [t])
  {
    forall i, j | 0 <= i < j < |s + [t]| ensures (s + [t])[i].id != (s + [t])[j].id {
      if j == |s| {
        assert s[i].id != t.id;
      }
    }
  }

  /** The ids of a duplicate-free sequence are as many as its stops. */
  lemma {:induction false} DistinctIdsCard(s: seq<Stop>)
    requires DistinctIds(s)
    ensures |IdSet(s)| == |s|
  {
    if s != [] {
      var tail := s[1..];
      DistinctIdsCard(tail);
      assert IdSet(s) == {s[0].id} + IdSet(tail) by {
        forall x | x in IdSet(s) ensures x in {s[0].id} + IdSet(tail) {
          var i :| 0 <= i < |s| && s[i].id == x;
          if i > 0 { assert tail[i - 1].id == x; }
        }
        forall x | x in IdSet(tail) ensures x in IdSet(s) {
          var i :| 0 <= i < |tail| && tail[i].id == x;
          assert s[i + 1].id == x;
        }
      }
      forall i | 0 <= i < |tail| ensures tail[i].id != s[0].id {
        assert tail[i] == s[i + 1];
      }
    }
  }

  /** Removing an id that is absent leaves the sequence as it was. */
  lemma {:induction false} RemoveAbsentId(s: seq<Stop>, id: int)
    requires !HasId(s, id)
    ensures RemoveId(s, id) == s
  {
    if s != [] {
      assert s[0].id != id;
      forall i | 0 <= i < |s[1..]| ensures s[1..][i].id != id {
        assert s[1..][i] == s[i + 1];
      }
      RemoveAbsentId(s[1..], id);
      assert s == [s[0]] + s[1..];
    }
  }

  /** Removing an id cuts out exactly the first stop with that id: the stops
      before and after it keep their order. */
  lemma {:induction false} RemoveIdSplices(s: seq<Stop>, id: int, k: int)
    requires 0 <= k < |s| && s[k].id == id
    requires forall j :: 0 <= j < k ==> s[j].id != id
    ensures RemoveId(s, id) == s[..k] + s[k + 1..]
  {
    if k > 0 {
      var tail := s[1..];
      forall j | 0 <= j < k - 1 ensures tail[j].id != id {
        assert tail[j] == s[j + 1];
      }
      RemoveIdSplices(tail, id, k - 1);
      assert s[..k] == [s[0]] + tail[..k - 1];
      assert s[k + 1..] == tail[k..];
    }
  }

  /** On a duplicate-free sequence, removing a present id drops exactly one
      stop, the id is then absent, the ids stay distinct and every other id is
      as present as before. */
  lemma RemovePresentId(s: seq<Stop>, id: int)
    requires DistinctIds(s) && HasId(s, id)
    ensures |RemoveId(s, id)| == |s| - 1
    ensures !HasId(RemoveId(s, id), id)
    ensures DistinctIds(RemoveId(s, id))
    ensures forall other :: other != id ==> (HasId(RemoveId(s, id), other) <==> HasId(s, other))
  {
    var k :| 0 <= k < |s| && s[k].id == id;
    RemoveIdSplices(s, id, k);
    var r := s[..k] + s[k + 1..];
    assert forall j :: 0 <= j < |r| ==> r[j] == (if j < k then s[j] else s[j + 1]);
    forall other | other != id && HasId(s, other) ensures HasId(r, other) {
      var i :| 0 <= i < |s| && s[i].id == other;
      assert i != k;
      if i < k { assert r[i].id == other; } else { assert r[i - 1].id == other; }
    }
  }

  /** Adding a new stop at the end and removing it again restores the sequence. */
  lemma AppendThenRemove(s: seq<Stop>, t: Stop)
    requires !HasId(s, t.id)
    ensures RemoveId(s + [t], t.id) == s
  {
    forall j | 0 <= j < |s| ensures (s + [t])[j].id != t.id {
      assert s[j] == (s + [t])[j];
    }
    RemoveIdSplices(s + [t], t.id, |s|);
    assert (s + [t])[..|s|] == s;
  }
}
