/**
 * The `MapApplication` of the tracker: its marker and animator tables, the
 * selection filter, the arrows of the selected route, and the fetch driver
 * with its replace-or-slide decision. Server answers, wall-clock times,
 * animation frame ids and the distance and bearing between two points are
 * parameters; the map widget, DOM and event wiring are left out.
 */
module MapApp {
  import opened Wrappers
  import opened Vehicles
  import opened Easing
  import opened MarkerAnimation
  import opened RouteArrows
  import opened Places
  import opened MarkerTables

  /** After more than two minutes away the markers are replaced rather than slid. */
  const StaleAfter: int := 2 * 60 * 1000

  /** The answer of `/visualVehicle` for a selected vehicle. */
  datatype Schedule = Schedule(agencyDisplayName: string, shape: seq<Location>, routeType: string)

  /** The answer of `/visualMap`. */
  datatype MapResponse = MapResponse(vehicles: seq<Vehicle>, oldVehicles: seq<Vehicle>)

  /** The body posted to `/visualMap`. */
  datatype MapRequest = MapRequest(place: string, includeOld: bool)

  /** The replace decision on becoming visible: more than two minutes between now and the last update, either way. */
  function ShouldReplace(now: int, lastUpdatedAt: int): (r: bool)
    ensures r <==> now > lastUpdatedAt + StaleAfter || now < lastUpdatedAt - StaleAfter
    ensures now == lastUpdatedAt + StaleAfter ==> !r
  {
    var gap := now - lastUpdatedAt;
    (if gap < 0 then -gap else gap) > StaleAfter
  }

  /** The request `fetchAndUpdate(replace)` sends: none while the user is inactive. */
  function RequestFor(userActive: bool, place: Place, replace: bool): Option<MapRequest>
  {
    if !userActive then None else Some(MapRequest(place.name, replace))
  }

  /** A row whose marker `hideSomeMarkers(headsign, routeShortName)` has passed over. */
  function HideRow(row: MarkerData, headsign: string, routeShortName: string): (r: MarkerData)
    ensures r.marker.hidden <==> row.marker.hidden || !OnRoute(row.vehicle, headsign, routeShortName)
    ensures r.vehicle == row.vehicle && r.clickVehicle == row.clickVehicle
    ensures r.marker.lngLat == row.marker.lngLat && r.marker.arrow == row.marker.arrow
  {
    if !OnRoute(row.vehicle, headsign, routeShortName) then row.(marker := row.marker.(hidden := true)) else row
  }

  /** A row whose marker `showAllMarkers` has passed over. */
  function ShowRow(row: MarkerData): (r: MarkerData)
    ensures !r.marker.hidden
    ensures r.vehicle == row.vehicle && r.clickVehicle == row.clickVehicle
    ensures r.marker.lngLat == row.marker.lngLat && r.marker.arrow == row.marker.arrow
  {
    row.(marker := row.marker.(hidden := false))
  }

  class MapApplication {
    var markers: map<string, MarkerData>
    var animators: map<string, AnimState>
    var selectedVehicle: Option<Vehicle>
    /** The route layer on the map, named by the time it was drawn (`route-<time>`). */
    var routeLayerId: Option<int>
    var selectedSchedule: Option<Schedule>
    var routeArrows: seq<Arrow>
    var place: Place
    var userActive: bool
    var lastUpdatedAt: Option<int>

    ghost function Table(): Tables
      reads this
    {
      Tables(markers, animators)
    }

    /** The tables agree, and while nothing is selected every marker is shown. */
    ghost predicate Valid()
      reads this
    {
      && WellKeyed(Table())
      && (selectedVehicle.None? ==> AllShown(markers))
    }

    /** The state the constructor leaves, before any place or snapshot. */
    constructor ()
      ensures Valid() && markers == map[] && animators == map[]
      ensures selectedVehicle.None? && routeLayerId.None? && selectedSchedule.None? && routeArrows == []
      ensures place == USA && userActive && lastUpdatedAt.None?
    {
      markers := map[];
      animators := map[];
      selectedVehicle := None;
      routeLayerId := None;
      selectedSchedule := None;
      routeArrows := [];
      place := USA;
      userActive := true;
      lastUpdatedAt := None;
    }

    /**
     * Adds a row for `vehicle`: a new marker at `position` with the
     * vehicle's bearing icon, hidden if a selection is active and the
     * vehicle is unrelated to it, and an idle animator.
     */
    method CreateMarker(vehicle: Vehicle, position: LngLat)
      modifies this`markers, this`animators
      ensures markers == old(markers)[Key(vehicle) := NewRow(selectedVehicle, vehicle, position)]
      ensures animators == old(animators)[Key(vehicle) := Initial]
    {
      var marker := MarkerRecord(position, false, BearingIcon(vehicle));
      animators := animators[Key(vehicle) := Initial];
      markers := markers[Key(vehicle) := MarkerData(marker, vehicle, vehicle)];
      if selectedVehicle.Some? {
        if vehicle.headsign != selectedVehicle.value.headsign
           || vehicle.routeShortName != selectedVehicle.value.routeShortName {
          marker := marker.(hidden := true);
          markers := markers[Key(vehicle) := MarkerData(marker, vehicle, vehicle)];
        }
      }
    }

    /**
     * Reconciles the tables with a snapshot: a located vehicle with a known
     * key refreshes its row and retargets its animator, an unknown key gets
     * a new row, a vehicle without a location is skipped, and every row
     * whose key the snapshot does not report is taken off the map, its
     * animator stopped and both deleted.
     */
    method UpdateVehicles(vs: seq<Vehicle>, now: int, frame: FrameId)
      requires Valid()
      modifies this`markers, this`animators, this`lastUpdatedAt
      ensures Table() == Reconcile(old(Table()), selectedVehicle, vs, now, frame)
      ensures lastUpdatedAt == Some(now) && Valid()
    {
      var incoming: set<string> := {};
      var i := 0;
      while i < |vs|
        invariant 0 <= i <= |vs|
        invariant incoming == LocatedKeys(vs[..i])
        invariant Table() == ApplySnapshot(old(Table()), selectedVehicle, vs[..i], now, frame)
      {
        PrefixStep(vs, i);
        var vehicle := vs[i];
        if vehicle.location.Some? {
          var k := Key(vehicle);
          incoming := incoming + {k};
          var newPos := LngLat(vehicle.location.value.lng, vehicle.location.value.lat);
          if k in markers {
            var markerData := markers[k];
            if k in animators {
              // slideTo(newPos, 60000): the first frame shows the marker where it is
              animators := animators[k := Heading(markerData.marker.lngLat, newPos, SlideDuration, now, frame)];
            }
            markers := markers[k := markerData.(vehicle := vehicle)];
          } else {
            CreateMarker(vehicle, newPos);
          }
        }
        i := i + 1;
      }
      assert vs[..|vs|] == vs;
      RemoveAbsent(incoming);
      lastUpdatedAt := Some(now);
      ReconcileKeys(old(Table()), selectedVehicle, vs, now, frame);
      if selectedVehicle.None? {
        ReconcileKeepsShown(old(Table()), vs, now, frame);
      }
    }

    /**
     * The removal pass of `updateVehicles`: every row whose key is not in
     * `incoming` has its marker removed from the map and its animator
     * stopped, and both are deleted.
     */
    method RemoveAbsent(incoming: set<string>)
      modifies this`markers, this`animators
      ensures Table() == Without(old(Table()), old(markers).Keys - incoming)
    {
      var ids := markers.Keys;
      while ids != {}
        decreases ids
        invariant forall x :: x in markers <==> x in old(markers) && (x in ids || x in incoming)
        invariant forall x :: x in animators <==> x in old(animators) && (x in ids || x in incoming || x !in old(markers))
        invariant forall x :: x in markers ==> markers[x] == old(markers)[x]
        invariant forall x :: x in animators ==> animators[x] == old(animators)[x]
      {
        var id :| id in ids;
        ids := ids - {id};
        if id !in incoming {
          // the marker is removed from the map; a stopped animator runs no more frames
          if id in animators {
            animators := animators - {id};
          }
          markers := markers - {id};
        }
      }
    }

    /** Takes every marker off the map, stops and deletes the animator of each marker's vehicle, and empties the marker table. */
    method ClearMarkers()
      requires Valid()
      modifies this`markers, this`animators
      ensures Table() == Cleared(old(Table())) == Tables(map[], map[])
      ensures Valid()
    {
      var rows := markers.Keys;
      while rows != {}
        decreases rows
        invariant rows <= markers.Keys && markers == old(markers)
        invariant forall x :: x in animators <==> x in rows
      {
        var id :| id in rows;
        rows := rows - {id};
        var k := Key(markers[id].vehicle);
        // marker.remove()
        if k in animators {
          // stop(), then delete
          animators := animators - {k};
        }
      }
      markers := map[];
      ClearEmpties(old(Table()));
    }

    /** The animation frame of row `id`'s animator at time `now`, requesting the next one as `next`. */
    method AnimationFrame(id: string, now: int, next: FrameId)
      requires Valid()
      modifies this`markers, this`animators
      ensures Table() == AdvanceRow(old(Table()), id, now, next)
      ensures Valid()
    {
      if id in animators && animators[id].isAnimating {
        var s := animators[id];
        if id in markers {
          markers := markers[id := markers[id].(marker := markers[id].marker.(lngLat := Shown(s, now)))];
        }
        animators := animators[id := Advanced(s, now, next)];
      }
    }

    /** Hides the marker of every row whose vehicle is off the given route-direction; the others keep their display. */
    method HideSomeMarkers(headsign: string, routeShortName: string)
      modifies this`markers
      ensures markers.Keys == old(markers).Keys
      ensures forall id :: id in markers ==> markers[id] == HideRow(old(markers)[id], headsign, routeShortName)
    {
      var ids := markers.Keys;
      while ids != {}
        decreases ids
        invariant ids <= markers.Keys == old(markers).Keys
        invariant forall id :: id in markers ==>
                    markers[id] == if id in ids then old(markers)[id] else HideRow(old(markers)[id], headsign, routeShortName)
      {
        var id :| id in ids;
        ids := ids - {id};
        markers := markers[id := HideRow(markers[id], headsign, routeShortName)];
      }
    }

    /** Shows every marker, clears the selection and its schedule, and removes the route layer and arrows. */
    method ShowAllMarkers()
      requires Valid()
      modifies this`markers, this`selectedVehicle, this`selectedSchedule, this`routeLayerId, this`routeArrows
      ensures markers.Keys == old(markers).Keys
      ensures forall id :: id in markers ==> markers[id] == ShowRow(old(markers)[id])
      ensures selectedVehicle.None? && selectedSchedule.None? && routeLayerId.None? && routeArrows == []
      ensures Valid()
    {
      var ids := markers.Keys;
      while ids != {}
        decreases ids
        invariant ids <= markers.Keys == old(markers).Keys
        invariant forall id :: id in markers ==>
                    markers[id] == if id in ids then old(markers)[id] else ShowRow(old(markers)[id])
      {
        var id :| id in ids;
        ids := ids - {id};
        markers := markers[id := ShowRow(markers[id])];
      }
      selectedVehicle := None;
      selectedSchedule := None;
      ClearRouteShapes();
    }

    /** Removes the route layer, if any, and every route arrow. */
    method ClearRouteShapes()
      modifies this`routeLayerId, this`routeArrows
      ensures routeLayerId.None? && routeArrows == []
    {
      if routeLayerId.Some? {
        routeLayerId := None;
      }
      routeArrows := [];
    }

    /**
     * Draws a route: nothing for an empty shape; otherwise the previous
     * route goes, a layer named by the time `now` is added and the arrows
     * of the shape are placed.
     */
    method DrawRouteShape(routeColor: string, shape: seq<Location>, distance: (Location, Location) -> real,
                          bearing: (Location, Location) -> real, now: int)
      modifies this`routeLayerId, this`routeArrows
      ensures |shape| == 0 ==> routeLayerId == old(routeLayerId) && routeArrows == old(routeArrows)
      ensures |shape| > 0 ==> routeLayerId == Some(now) && routeArrows == ArrowsFor(shape, routeColor, distance, bearing)
    {
      if |shape| == 0 {
        return;
      }
      ClearRouteShapes();
      routeLayerId := Some(now);
      AddArrowsToRoute(routeColor, shape, distance, bearing);
    }

    /**
     * Walks the segments of a shape with a running distance: when it has
     * reached the spacing, an arrow pointing along the segment is placed at
     * the segment's start and the running distance restarts at 0 (the
     * segment itself is not counted); otherwise the segment is added.
     */
    method AddArrowsToRoute(routeColor: string, shape: seq<Location>, distance: (Location, Location) -> real,
                            bearing: (Location, Location) -> real)
      modifies this`routeArrows
      ensures routeArrows == old(routeArrows) + ArrowsFor(shape, routeColor, distance, bearing)
    {
      // the arrows pushed onto `routeArrows`, gathered first so that the walk itself leaves the heap alone
      var arrows: seq<Arrow> := [];
      var totalDistance := 0.0;
      var i := 0;
      while i < |shape| - 1
        invariant 0 <= i && (i == 0 || i < |shape|)
        invariant WalkTo(shape, distance, routeColor, bearing, i) == Walk(totalDistance, arrows)
        modifies {}
      {
        var segmentDistance := distance(shape[i], shape[i + 1]);
        if totalDistance >= ArrowSpacing {
          var b := bearing(shape[i], shape[i + 1]);
          arrows := arrows + [Arrow(shape[i], b, routeColor)];
          totalDistance := 0.0;
        } else {
          totalDistance := totalDistance + segmentDistance;
        }
        i := i + 1;
      }
      WalkPlacesArrowsFor(shape, distance, routeColor, bearing);
      routeArrows := routeArrows + arrows;
    }

    /**
     * The click handler of row `id`'s marker, up to its schedule request.
     * With a selection active it clears it. Otherwise it hides the markers
     * off the clicked vehicle's route-direction, selects that vehicle and
     * requests the schedule of its trip (the returned trip id).
     */
    method ClickMarker(id: string) returns (tripRequest: Option<string>)
      requires Valid() && id in markers
      modifies this`markers, this`selectedVehicle, this`selectedSchedule, this`routeLayerId, this`routeArrows
      ensures markers.Keys == old(markers).Keys && Valid()
      ensures old(selectedVehicle).Some? ==>
                && (forall k :: k in markers ==> markers[k] == ShowRow(old(markers)[k]))
                && selectedVehicle.None? && selectedSchedule.None? && routeLayerId.None? && routeArrows == []
                && tripRequest.None?
      ensures old(selectedVehicle).None? ==>
                var c := old(markers)[id].clickVehicle;
                && (forall k :: k in markers ==> markers[k] == HideRow(old(markers)[k], c.headsign, c.routeShortName))
                && selectedVehicle == Some(c)
                && selectedSchedule == old(selectedSchedule) && routeLayerId == old(routeLayerId)
                && routeArrows == old(routeArrows)
                && tripRequest == Some(c.tripId)
    {
      var vehicle := markers[id].clickVehicle;
      if selectedVehicle.Some? {
        ShowAllMarkers();
        tripRequest := None;
      } else {
        HideSomeMarkers(vehicle.headsign, vehicle.routeShortName);
        selectedVehicle := Some(vehicle);
        tripRequest := Some(vehicle.tripId);
      }
    }

    /**
     * The rest of the click handler of `vehicle`'s marker, once its schedule
     * request has settled: on success the schedule is kept and its route
     * drawn in the vehicle's colour; on failure nothing changes.
     */
    method ScheduleArrived(vehicle: Vehicle, response: Option<Schedule>, distance: (Location, Location) -> real,
                           bearing: (Location, Location) -> real, now: int)
      requires Valid()
      modifies this`selectedSchedule, this`routeLayerId, this`routeArrows
      ensures response.None? ==> selectedSchedule == old(selectedSchedule) && routeLayerId == old(routeLayerId)
                                 && routeArrows == old(routeArrows)
      ensures response.Some? ==>
                && selectedSchedule == response
                && (|response.value.shape| > 0 ==>
                      routeLayerId == Some(now) && routeArrows == ArrowsFor(response.value.shape, vehicle.routeColor, distance, bearing))
                && (|response.value.shape| == 0 ==> routeLayerId == old(routeLayerId) && routeArrows == old(routeArrows))
      ensures Valid()
    {
      if response.Some? {
        selectedSchedule := response;
        DrawRouteShape(vehicle.routeColor, response.value.shape, distance, bearing, now);
      }
    }

    /**
     * `ScheduleArrived` as evidently intended: a schedule that settles after
     * the selection changed is dropped.
     */
    method ScheduleArrivedCorrected(vehicle: Vehicle, response: Option<Schedule>, distance: (Location, Location) -> real,
                                    bearing: (Location, Location) -> real, now: int)
      requires Valid()
      requires selectedVehicle.None? ==> selectedSchedule.None? && routeLayerId.None? && routeArrows == []
      modifies this`selectedSchedule, this`routeLayerId, this`routeArrows
      ensures selectedVehicle.None? ==> selectedSchedule.None? && routeLayerId.None? && routeArrows == []
      ensures response.None? || selectedVehicle != Some(vehicle) ==>
                selectedSchedule == old(selectedSchedule) && routeLayerId == old(routeLayerId) && routeArrows == old(routeArrows)
      ensures response.Some? && selectedVehicle == Some(vehicle) ==>
                && selectedSchedule == response
                && (|response.value.shape| > 0 ==>
                      routeLayerId == Some(now) && routeArrows == ArrowsFor(response.value.shape, vehicle.routeColor, distance, bearing))
                && (|response.value.shape| == 0 ==> routeLayerId == old(routeLayerId) && routeArrows == old(routeArrows))
      ensures Valid()
    {
      if response.Some? && selectedVehicle == Some(vehicle) {
        selectedSchedule := response;
        DrawRouteShape(vehicle.routeColor, response.value.shape, distance, bearing, now);
      }
    }

    /**
     * The part of `fetchAndUpdate(replace)` after its request: a failed
     * request or unreadable answer changes nothing; in replace mode the
     * tables are cleared, the old snapshot is applied and, after the 1 s
     * settle pause (at `settledAt`), the live one; otherwise the live
     * snapshot is applied.
     */
    method FinishFetch(replace: bool, response: Option<MapResponse>, now: int, settledAt: int, frame: FrameId)
      requires Valid()
      modifies this`markers, this`animators, this`lastUpdatedAt
      ensures response.None? ==> Table() == old(Table()) && lastUpdatedAt == old(lastUpdatedAt)
      ensures response.Some? && !replace ==>
                Table() == Reconcile(old(Table()), selectedVehicle, response.value.vehicles, now, frame)
                && lastUpdatedAt == Some(now)
      ensures response.Some? && replace ==>
                Table() == Replace(old(Table()), selectedVehicle, response.value.oldVehicles, response.value.vehicles,
                                   now, settledAt, frame)
                && lastUpdatedAt == Some(settledAt)
      ensures Valid()
    {
      if response.None? {
        return;
      }
      var data := response.value;
      if replace {
        ClearMarkers();
      }
      var at := now;
      if replace {
        UpdateVehicles(data.oldVehicles, now, frame);
        at := settledAt;
      }
      UpdateVehicles(data.vehicles, at, frame);
    }

    /** `fetchAndUpdate(replace)`: nothing while the user is inactive; otherwise the request, then its answer. */
    method FetchAndUpdate(replace: bool, response: Option<MapResponse>, now: int, settledAt: int, frame: FrameId)
      returns (request: Option<MapRequest>)
      requires Valid()
      modifies this`markers, this`animators, this`lastUpdatedAt
      ensures request == RequestFor(userActive, place, replace)
      ensures !userActive ==> Table() == old(Table()) && lastUpdatedAt == old(lastUpdatedAt)
      ensures userActive && response.Some? && !replace ==>
                Table() == Reconcile(old(Table()), selectedVehicle, response.value.vehicles, now, frame)
                && lastUpdatedAt == Some(now)
      ensures userActive && response.Some? && replace ==>
                Table() == Replace(old(Table()), selectedVehicle, response.value.oldVehicles, response.value.vehicles,
                                   now, settledAt, frame)
                && lastUpdatedAt == Some(settledAt)
      ensures response.None? ==> Table() == old(Table()) && lastUpdatedAt == old(lastUpdatedAt)
      ensures Valid()
    {
      request := RequestFor(userActive, place, replace);
      if !userActive {
        return;
      }
      FinishFetch(replace, response, now, settledAt, frame);
    }

    /**
     * The `visibilitychange` handler: hiding the page makes the user
     * inactive; showing it again, once an update has happened, makes the
     * user active and fetches, replacing when the last update is stale.
     * Showing it before any update changes nothing.
     */
    method OnVisibilityChange(hidden: bool, now: int, response: Option<MapResponse>, settledAt: int, frame: FrameId)
      returns (request: Option<MapRequest>)
      requires Valid()
      modifies this`userActive, this`markers, this`animators, this`lastUpdatedAt
      ensures hidden ==> !userActive && request.None? && Table() == old(Table()) && lastUpdatedAt == old(lastUpdatedAt)
      ensures !hidden && old(lastUpdatedAt).None? ==>
                userActive == old(userActive) && request.None? && Table() == old(Table()) && lastUpdatedAt.None?
      ensures !hidden && old(lastUpdatedAt).Some? ==>
                && userActive && request == Some(MapRequest(place.name, ShouldReplace(now, old(lastUpdatedAt).value)))
                && (response.None? ==> Table() == old(Table()) && lastUpdatedAt == old(lastUpdatedAt))
                && (response.Some? && !ShouldReplace(now, old(lastUpdatedAt).value) ==>
                      Table() == Reconcile(old(Table()), selectedVehicle, response.value.vehicles, now, frame)
                      && lastUpdatedAt == Some(now))
                && (response.Some? && ShouldReplace(now, old(lastUpdatedAt).value) ==>
                      Table() == Replace(old(Table()), selectedVehicle, response.value.oldVehicles, response.value.vehicles,
                                         now, settledAt, frame)
                      && lastUpdatedAt == Some(settledAt))
      ensures Valid()
    {
      request := None;
      if hidden {
        userActive := false;
      } else if lastUpdatedAt.Some? {
        userActive := true;
        var replace := ShouldReplace(now, lastUpdatedAt.value);
        request := FetchAndUpdate(replace, response, now, settledAt, frame);
      }
    }

    /** The `visibilitychange` handler as evidently intended: showing the page always makes the user active again. */
    method OnVisibilityChangeCorrected(hidden: bool, now: int, response: Option<MapResponse>, settledAt: int, frame: FrameId)
      returns (request: Option<MapRequest>)
      requires Valid()
      modifies this`userActive, this`markers, this`animators, this`lastUpdatedAt
      ensures userActive <==> !hidden
      ensures hidden ==> request.None? && Table() == old(Table()) && lastUpdatedAt == old(lastUpdatedAt)
      ensures !hidden && old(lastUpdatedAt).None? ==> request.None? && Table() == old(Table()) && lastUpdatedAt.None?
      ensures !hidden && old(lastUpdatedAt).Some? ==>
                && request == Some(MapRequest(place.name, ShouldReplace(now, old(lastUpdatedAt).value)))
                && (response.None? ==> Table() == old(Table()) && lastUpdatedAt == old(lastUpdatedAt))
                && (response.Some? && !ShouldReplace(now, old(lastUpdatedAt).value) ==>
                      Table() == Reconcile(old(Table()), selectedVehicle, response.value.vehicles, now, frame)
                      && lastUpdatedAt == Some(now))
                && (response.Some? && ShouldReplace(now, old(lastUpdatedAt).value) ==>
                      Table() == Replace(old(Table()), selectedVehicle, response.value.oldVehicles, response.value.vehicles,
                                         now, settledAt, frame)
                      && lastUpdatedAt == Some(settledAt))
      ensures Valid()
    {
      request := None;
      if hidden {
        userActive := false;
      } else {
        userActive := true;
        if lastUpdatedAt.Some? {
          var replace := ShouldReplace(now, lastUpdatedAt.value);
          request := FetchAndUpdate(replace, response, now, settledAt, frame);
        }
      }
    }

    /**
     * `setPlace`: a known hash flies the map to that place, makes it current
     * and starts a replace fetch (the returned request); any other hash
     * changes nothing.
     */
    method SetPlace(hash: string) returns (navigated: bool, request: Option<MapRequest>)
      modifies this`place
      ensures navigated <==> PlaceForHash(hash).Some?
      ensures navigated ==> place == PlaceForHash(hash).value && request == RequestFor(userActive, place, true)
      ensures !navigated ==> place == old(place) && request.None?
    {
      var p := PlaceForHash(hash);
      if p.None? {
        return false, None;
      }
      place := p.value;
      request := RequestFor(userActive, place, true);
      navigated := true;
    }

    /** The `hashchange` handler: `setPlace`, then one more replace fetch when it navigated and an update has happened. */
    method OnHashChange(hash: string) returns (requests: seq<MapRequest>)
      modifies this`place
      ensures PlaceForHash(hash).None? ==> place == old(place) && requests == []
      ensures PlaceForHash(hash).Some? ==> place == PlaceForHash(hash).value
      ensures PlaceForHash(hash).Some? && userActive ==>
                requests == (if lastUpdatedAt.Some? then [MapRequest(place.name, true), MapRequest(place.name, true)]
                                else [MapRequest(place.name, true)])
      ensures !userActive ==> requests == []
    {
      var navigated, first := SetPlace(hash);
      requests := if first.Some? then [first.value] else [];
      if navigated && lastUpdatedAt.Some? {
        var second := RequestFor(userActive, place, true);
        requests := requests + (if second.Some? then [second.value] else []);
      }
    }

    /** The `hashchange` handler as evidently intended: `setPlace` alone, so one fetch per navigation. */
    method OnHashChangeCorrected(hash: string) returns (requests: seq<MapRequest>)
      modifies this`place
      ensures PlaceForHash(hash).None? ==> place == old(place) && requests == []
      ensures PlaceForHash(hash).Some? ==> place == PlaceForHash(hash).value
      ensures PlaceForHash(hash).Some? && userActive ==> requests == [MapRequest(place.name, true)]
      ensures !userActive ==> requests == []
    {
      var navigated, first := SetPlace(hash);
      requests := if first.Some? then [first.value] else [];
    }
  }

  /**
   * The page is hidden before the first update has happened: the load
   * fetch is skipped because the user is inactive, showing the page again
   * does not reactivate the user because nothing has been fetched yet, and
   * every later interval tick is skipped too, so the map stays empty.
   */
  method HiddenBeforeFirstUpdate(response: Option<MapResponse>, now: int, settledAt: int, frame: FrameId)
    returns (app: MapApplication, requests: seq<Option<MapRequest>>)
    ensures requests == [None, None, None, None]
    ensures !app.userActive && app.lastUpdatedAt.None? && app.markers == map[]
  {
    app := new MapApplication();
    var onHide := app.OnVisibilityChange(true, now, response, settledAt, frame);
    var onLoad := app.FetchAndUpdate(true, response, now, settledAt, frame);
    var onShow := app.OnVisibilityChange(false, now, response, settledAt, frame);
    var onTick := app.FetchAndUpdate(false, response, now, settledAt, frame);
    requests := [onHide, onLoad, onShow, onTick];
  }

  /** The same sequence with the corrected handler: once the page is shown again the next interval tick fetches. */
  method HiddenBeforeFirstUpdateCorrected(response: Option<MapResponse>, now: int, settledAt: int, frame: FrameId)
    returns (app: MapApplication, requests: seq<Option<MapRequest>>)
    ensures requests == [None, None, None, Some(MapRequest(USA.name, false))]
    ensures app.userActive
    ensures response.Some? ==> app.lastUpdatedAt == Some(now)
                               && app.markers.Keys == LocatedKeys(response.value.vehicles)
  {
    app := new MapApplication();
    var onHide := app.OnVisibilityChangeCorrected(true, now, response, settledAt, frame);
    var onLoad := app.FetchAndUpdate(true, response, now, settledAt, frame);
    var onShow := app.OnVisibilityChangeCorrected(false, now, response, settledAt, frame);
    var onTick := app.FetchAndUpdate(false, response, now, settledAt, frame);
    requests := [onHide, onLoad, onShow, onTick];
    if response.Some? {
      ReconcileKeys(Tables(map[], map[]), None, response.value.vehicles, now, frame);
    }
  }

  /** A fresh application with one marker, for `v`, clicked twice: selected, then deselected. */
  method SelectedThenDeselected(v: Vehicle, at: LngLat) returns (app: MapApplication)
    ensures fresh(app) && app.Valid()
    ensures app.selectedVehicle.None? && app.selectedSchedule.None? && app.routeLayerId.None? && app.routeArrows == []
  {
    app := new MapApplication();
    app.CreateMarker(v, at);
    assert app.markers == map[Key(v) := NewRow(None, v, at)] && app.animators == map[Key(v) := Initial];
    assert app.Valid();
    var select := app.ClickMarker(Key(v));
    assert app.selectedVehicle.Some? && Key(v) in app.markers;
    var deselect := app.ClickMarker(Key(v));
    assert app.selectedVehicle.None?;
  }

  /**
   * A vehicle is clicked and, before its schedule arrives, clicked again:
   * the second click clears the selection, and the late schedule is then
   * kept and its route drawn with nothing selected.
   */
  method LateScheduleAfterDeselect(v: Vehicle, at: LngLat, schedule: Schedule,
                                   distance: (Location, Location) -> real, bearing: (Location, Location) -> real, now: int)
    returns (app: MapApplication)
    ensures app.selectedVehicle.None? && app.selectedSchedule == Some(schedule)
    ensures |schedule.shape| > 0 ==> app.routeLayerId == Some(now)
  {
    app := SelectedThenDeselected(v, at);
    app.ScheduleArrived(v, Some(schedule), distance, bearing, now);
  }

  /** The same sequence with the corrected continuation: the late schedule is dropped. */
  method LateScheduleAfterDeselectCorrected(v: Vehicle, at: LngLat, schedule: Schedule,
                                            distance: (Location, Location) -> real, bearing: (Location, Location) -> real,
                                            now: int)
    returns (app: MapApplication)
    ensures app.selectedVehicle.None? && app.selectedSchedule.None? && app.routeLayerId.None? && app.routeArrows == []
  {
    app := SelectedThenDeselected(v, at);
    app.ScheduleArrivedCorrected(v, Some(schedule), distance, bearing, now);
  }

  /** After the first update, navigating to `#SF` sends the same replace request twice. */
  method NavigationFetchesTwice(response: MapResponse, now: int, settledAt: int, frame: FrameId)
    returns (app: MapApplication, requests: seq<MapRequest>)
    ensures requests == [MapRequest("SF", true), MapRequest("SF", true)]
  {
    app := new MapApplication();
    var onLoad := app.FetchAndUpdate(true, Some(response), now, settledAt, frame);
    requests := app.OnHashChange("#SF");
  }

  /** The same navigation with the corrected handler sends it once. */
  method NavigationFetchesTwiceCorrected(response: MapResponse, now: int, settledAt: int, frame: FrameId)
    returns (app: MapApplication, requests: seq<MapRequest>)
    ensures requests == [MapRequest("SF", true)]
  {
    app := new MapApplication();
    var onLoad := app.FetchAndUpdate(true, Some(response), now, settledAt, frame);
    requests := app.OnHashChangeCorrected("#SF");
  }
}
