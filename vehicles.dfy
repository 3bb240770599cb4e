/**
 * Vehicles as the feed reports them, the key that names their marker, and
 * the facts about a snapshot (an ordered list of vehicles) that marker
 * reconciliation depends on.
 */
module Vehicles {
  import opened Wrappers

  /** A point as the feed and route shapes give it: `{lat, lng}`. */
  datatype Location = Location(lat: real, lng: real)

  /** A map coordinate in MapLibre's `[lng, lat]` order. */
  datatype LngLat = LngLat(lng: real, lat: real)

  /** One vehicle of a snapshot; `location` and `bearing` may be absent. */
  datatype Vehicle = Vehicle(
    vehicleId: string,
    tripId: string,
    location: Option<Location>,
    routeColor: string,
    textColor: string,
    routeShortName: string,
    routeLongName: string,
    headsign: string,
    bearing: Option<real>)

  /** The marker table key: the vehicle id and the trip id, concatenated with no separator. */
  function Key(v: Vehicle): string
  {
    v.vehicleId + v.tripId
  }

  predicate Located(v: Vehicle)
  {
    v.location.Some?
  }

  /** Where a located vehicle's marker goes: `[location.lng, location.lat]`. */
  function Position(v: Vehicle): LngLat
    requires Located(v)
  {
    LngLat(v.location.value.lng, v.location.value.lat)
  }

  /** A vehicle runs on the route-direction given by a headsign and a route short name. */
  predicate OnRoute(v: Vehicle, headsign: string, routeShortName: string)
  {
    v.headsign == headsign && v.routeShortName == routeShortName
  }

  /** Two trips of the same vehicle get different keys. */
  lemma KeySeparatesTrips(a: Vehicle, b: Vehicle)
    requires a.vehicleId == b.vehicleId && a.tripId != b.tripId
    ensures Key(a) != Key(b)
  {
    assert Key(a)[|a.vehicleId|..] == a.tripId;
    assert Key(b)[|b.vehicleId|..] == b.tripId;
  }

  /** Without a separator, different (vehicle, trip) pairs can share a key. */
  lemma KeyCanCollide(a: Vehicle, b: Vehicle)
    requires a.vehicleId == "1" && a.tripId == "23"
    requires b.vehicleId == "12" && b.tripId == "3"
    ensures a != b && Key(a) == Key(b)
  {
    assert Key(a) == ['1', '2', '3'] == Key(b);
  }

  /** The keys of the located vehicles of a snapshot (the `incomingVehicles` set). */
  function LocatedKeys(s: seq<Vehicle>): set<string>
  {
    if s == [] then {}
    else LocatedKeys(s[..|s| - 1]) + (if Located(s[|s| - 1]) then {Key(s[|s| - 1])} else {})
  }

  /** A key belongs to the snapshot exactly when some located vehicle of it has that key. */
  lemma {:induction false} LocatedKeysSpec(s: seq<Vehicle>, id: string)
    ensures id in LocatedKeys(s) <==> exists j :: 0 <= j < |s| && Located(s[j]) && Key(s[j]) == id
  {
    if s != [] {
      var init := s[..|s| - 1];
      LocatedKeysSpec(init, id);
      if id in LocatedKeys(init) {
        var j :| 0 <= j < |init| && Located(init[j]) && Key(init[j]) == id;
        assert s[j] == init[j];
      }
      if exists j :: 0 <= j < |s| && Located(s[j]) && Key(s[j]) == id {
        var j :| 0 <= j < |s| && Located(s[j]) && Key(s[j]) == id;
        if j < |s| - 1 {
          assert init[j] == s[j];
        }
      }
    }
  }

  /** The last located vehicle with key `id`: the one whose data the marker ends up holding. */
  function LastLocated(s: seq<Vehicle>, id: string): (r: Option<Vehicle>)
    ensures r.Some? <==> id in LocatedKeys(s)
    ensures r.Some? ==> r.value in s && Located(r.value) && Key(r.value) == id
  {
    if s == [] then None
    else if Located(s[|s| - 1]) && Key(s[|s| - 1]) == id then Some(s[|s| - 1])
    else LastLocated(s[..|s| - 1], id)
  }

  /** The first located vehicle with key `id`: the one a new marker is created for. */
  function FirstLocated(s: seq<Vehicle>, id: string): (r: Option<Vehicle>)
    ensures r.Some? <==> id in LocatedKeys(s)
    ensures r.Some? ==> r.value in s && Located(r.value) && Key(r.value) == id
  {
    if s == [] then None
    else if FirstLocated(s[..|s| - 1], id).Some? then FirstLocated(s[..|s| - 1], id)
    else if Located(s[|s| - 1]) && Key(s[|s| - 1]) == id then Some(s[|s| - 1])
    else None
  }

  /**
   * The search finds a vehicle exactly for the incoming keys, and the one it
   * finds is the last located vehicle of the snapshot with that key: none
   * after it has the key.
   */
  lemma {:induction false} LastLocatedIsLast(s: seq<Vehicle>, id: string)
    ensures LastLocated(s, id).Some? <==> id in LocatedKeys(s)
    ensures LastLocated(s, id).Some? ==>
              exists j :: 0 <= j < |s| && s[j] == LastLocated(s, id).value && Located(s[j]) && Key(s[j]) == id
                          && forall k :: j < k < |s| ==> !(Located(s[k]) && Key(s[k]) == id)
  {
    if s != [] {
      var init, last := s[..|s| - 1], s[|s| - 1];
      if Located(last) && Key(last) == id {
        assert s[|s| - 1] == LastLocated(s, id).value;
      } else if LastLocated(s, id).Some? {
        LastLocatedIsLast(init, id);
        var j :| 0 <= j < |init| && init[j] == LastLocated(init, id).value && Located(init[j]) && Key(init[j]) == id
                 && forall k :: j < k < |init| ==> !(Located(init[k]) && Key(init[k]) == id);
        assert s[j] == init[j];
        forall k | j < k < |s|
          ensures !(Located(s[k]) && Key(s[k]) == id)
        {
          if k < |s| - 1 {
            assert s[k] == init[k];
          }
        }
      }
    }
  }

  /**
   * The search finds a vehicle exactly for the incoming keys, and the one it
   * finds is the first located vehicle of the snapshot with that key: none
   * before it has the key.
   */
  lemma {:induction false} FirstLocatedIsFirst(s: seq<Vehicle>, id: string)
    ensures FirstLocated(s, id).Some? <==> id in LocatedKeys(s)
    ensures FirstLocated(s, id).Some? ==>
              exists j :: 0 <= j < |s| && s[j] == FirstLocated(s, id).value && Located(s[j]) && Key(s[j]) == id
                          && forall k :: 0 <= k < j ==> !(Located(s[k]) && Key(s[k]) == id)
  {
    if s != [] {
      var init, last := s[..|s| - 1], s[|s| - 1];
      if FirstLocated(init, id).Some? {
        FirstLocatedIsFirst(init, id);
        var j :| 0 <= j < |init| && init[j] == FirstLocated(init, id).value && Located(init[j]) && Key(init[j]) == id
                 && forall k :: 0 <= k < j ==> !(Located(init[k]) && Key(init[k]) == id);
        assert s[j] == init[j];
        forall k | 0 <= k < j
          ensures !(Located(s[k]) && Key(s[k]) == id)
        {
          assert s[k] == init[k];
        }
      } else if Located(last) && Key(last) == id {
        LocatedKeysSpec(init, id);
        forall k | 0 <= k < |s| - 1
          ensures !(Located(s[k]) && Key(s[k]) == id)
        {
          assert s[k] == init[k];
        }
        assert s[|s| - 1] == FirstLocated(s, id).value;
      }
    }
  }

  /** How many located vehicles of the snapshot have key `id`. */
  function LocatedCount(s: seq<Vehicle>, id: string): (r: nat)
    ensures r > 0 <==> id in LocatedKeys(s)
    ensures r <= |s|
    ensures r == 1 ==> FirstLocated(s, id) == LastLocated(s, id)
  {
    if s == [] then 0
    else LocatedCount(s[..|s| - 1], id) + (if Located(s[|s| - 1]) && Key(s[|s| - 1]) == id then 1 else 0)
  }

  /** Taking one more vehicle of a snapshot: the recursive functions above peel off its last element. */
  lemma PrefixStep(vs: seq<Vehicle>, i: nat)
    requires i < |vs|
    ensures vs[..i + 1][..i] == vs[..i] && vs[..i + 1][i] == vs[i]
  {
  }
}
