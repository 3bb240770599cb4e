/**
 * The two tables of the map client, `markers` and `animators`, keyed by
 * vehicle key, as values, and what `updateVehicles`, `createMarker` and
 * `clearMarkers` make of them. A marker is a record of what the core sets
 * on it; an animator is its state (see `MarkerAnimation`).
 */
module MarkerTables {
  import opened Wrappers
  import opened Vehicles
  import opened Easing
  import opened MarkerAnimation

  /** Every snapshot update slides markers over 60 s. */
  const SlideDuration: Millis := 60000

  /**
   * A map marker: where it is drawn, whether its element is hidden
   * (`display: none`), and the rotation of the bearing icon built into its
   * element (absent: no icon).
   */
  datatype MarkerRecord = MarkerRecord(lngLat: LngLat, hidden: bool, arrow: Option<real>)

  /**
   * A row of the marker table: the marker, the latest vehicle data, and the
   * vehicle the marker was created for, which its click handler keeps.
   */
  datatype MarkerData = MarkerData(marker: MarkerRecord, vehicle: Vehicle, clickVehicle: Vehicle)

  datatype Tables = Tables(markers: map<string, MarkerData>, animators: map<string, AnimState>)

  /** The bearing icon a new marker gets: only a truthy bearing draws one, so a bearing of 0 draws none. */
  function BearingIcon(v: Vehicle): Option<real>
  {
    if v.bearing.Some? && v.bearing.value != 0.0 then v.bearing else None
  }

  /** No marker of the table is hidden. */
  ghost predicate AllShown(m: map<string, MarkerData>)
  {
    forall id :: id in m ==> !m[id].marker.hidden
  }

  /**
   * The tables agree: the same keys, and every row is keyed by the key of
   * its vehicle and of the vehicle it was created for.
   */
  ghost predicate WellKeyed(t: Tables)
  {
    && (forall id :: id in t.markers <==> id in t.animators)
    && (forall id :: id in t.markers ==> Key(t.markers[id].vehicle) == id && Key(t.markers[id].clickVehicle) == id)
  }

  /** The row `createMarker(v, at)` adds; its animator starts as `Initial`. */
  function NewRow(selected: Option<Vehicle>, v: Vehicle, at: LngLat): (r: MarkerData)
    ensures r.vehicle == v && r.clickVehicle == v && r.marker.lngLat == at
    ensures r.marker.hidden <==> selected.Some? && !OnRoute(v, selected.value.headsign, selected.value.routeShortName)
    ensures r.marker.arrow.Some? <==> v.bearing.Some? && v.bearing.value != 0.0
    ensures r.marker.arrow.Some? ==> r.marker.arrow == v.bearing
  {
    MarkerData(MarkerRecord(at, selected.Some? && !OnRoute(v, selected.value.headsign, selected.value.routeShortName), BearingIcon(v)), v, v)
  }

  /**
   * One vehicle of a snapshot: skipped without a location; a known key gets
   * the new data and its animator slides from where the marker is drawn to
   * the new position; an unknown key gets a new row.
   */
  function ApplyVehicle(t: Tables, selected: Option<Vehicle>, v: Vehicle, now: int, frame: FrameId): Tables
  {
    if !Located(v) then t
    else
      var k := Key(v);
      if k in t.markers then
        var row := t.markers[k];
        Tables(t.markers[k := row.(vehicle := v)],
               if k in t.animators
               then t.animators[k := Heading(row.marker.lngLat, Position(v), SlideDuration, now, frame)]
               else t.animators)
      else
        Tables(t.markers[k := NewRow(selected, v, Position(v))], t.animators[k := Initial])
  }

  /** The vehicles of a snapshot applied in order. */
  function ApplySnapshot(t: Tables, selected: Option<Vehicle>, vs: seq<Vehicle>, now: int, frame: FrameId): Tables
  {
    if vs == [] then t
    else ApplyVehicle(ApplySnapshot(t, selected, vs[..|vs| - 1], now, frame), selected, vs[|vs| - 1], now, frame)
  }

  /** A table without the keys in `gone`. */
  function Drop<V>(m: map<string, V>, gone: set<string>): (r: map<string, V>)
    ensures forall id :: id in r <==> id in m && id !in gone
    ensures forall id :: id in r ==> r[id] == m[id]
  {
    map id | id in m && id !in gone :: m[id]
  }

  /** The rows whose key is in `gone` taken off, with their animators. */
  function Without(t: Tables, gone: set<string>): Tables
  {
    Tables(Drop(t.markers, gone), Drop(t.animators, gone))
  }

  /** What `updateVehicles(vs)` makes of the tables: the snapshot applied, then the rows it does not report removed. */
  function Reconcile(t: Tables, selected: Option<Vehicle>, vs: seq<Vehicle>, now: int, frame: FrameId): Tables
  {
    var applied := ApplySnapshot(t, selected, vs, now, frame);
    Without(applied, applied.markers.Keys - LocatedKeys(vs))
  }

  /** The keys of the vehicles held by the rows of a marker table. */
  function VehicleKeys(m: map<string, MarkerData>): set<string>
  {
    set id | id in m :: Key(m[id].vehicle)
  }

  /** What `clearMarkers` leaves: no rows, and no animator of a row's vehicle. */
  function Cleared(t: Tables): Tables
  {
    Tables(map[], Drop(t.animators, VehicleKeys(t.markers)))
  }

  /** Applying one vehicle keeps the tables well keyed. */
  lemma ApplyVehicleWellKeyed(t: Tables, selected: Option<Vehicle>, v: Vehicle, now: int, frame: FrameId)
    requires WellKeyed(t)
    ensures WellKeyed(ApplyVehicle(t, selected, v, now, frame))
  {
  }

  /** Applying a snapshot keeps the tables well keyed. */
  lemma {:induction false} ApplySnapshotWellKeyed(t: Tables, selected: Option<Vehicle>, vs: seq<Vehicle>, now: int, frame: FrameId)
    requires WellKeyed(t)
    ensures WellKeyed(ApplySnapshot(t, selected, vs, now, frame))
  {
    if vs != [] {
      ApplySnapshotWellKeyed(t, selected, vs[..|vs| - 1], now, frame);
      ApplyVehicleWellKeyed(ApplySnapshot(t, selected, vs[..|vs| - 1], now, frame), selected, vs[|vs| - 1], now, frame);
    }
  }

  /**
   * The row of key `id` in `r`, the tables `t` after the snapshot `vs` was
   * applied. A row that existed keeps its marker and holds the last located
   * vehicle of that key, and its animator slides from the marker's place to
   * that vehicle's position. A new row was created for the first such
   * vehicle; its animator is idle unless a later vehicle with the same key
   * retargeted it.
   */
  ghost predicate RowAfter(t: Tables, selected: Option<Vehicle>, vs: seq<Vehicle>, now: int, frame: FrameId,
                           id: string, r: Tables)
  {
    && WellKeyed(t) && WellKeyed(r)
    && (id in r.markers <==> id in t.markers || id in LocatedKeys(vs))
    && (id in t.markers ==>
          && r.markers[id] == t.markers[id].(vehicle := if id in LocatedKeys(vs) then LastLocated(vs, id).value
                                                         else t.markers[id].vehicle)
          && r.animators[id] == if id in LocatedKeys(vs)
                                then Heading(t.markers[id].marker.lngLat, Position(LastLocated(vs, id).value), SlideDuration, now, frame)
                                else t.animators[id])
    && (id !in t.markers && id in LocatedKeys(vs) ==>
          var first, last := FirstLocated(vs, id).value, LastLocated(vs, id).value;
          && r.markers[id] == NewRow(selected, first, Position(first)).(vehicle := last)
          && r.animators[id] == if LocatedCount(vs, id) == 1 then Initial
                                else Heading(Position(first), Position(last), SlideDuration, now, frame))
  }

  /** A vehicle with another key, or without a location, leaves the row of `id` as it was. */
  lemma RowAfterOther(t: Tables, selected: Option<Vehicle>, vs: seq<Vehicle>, now: int, frame: FrameId,
                      id: string, prev: Tables)
    requires vs != [] && RowAfter(t, selected, vs[..|vs| - 1], now, frame, id, prev)
    requires !Located(vs[|vs| - 1]) || Key(vs[|vs| - 1]) != id
    ensures RowAfter(t, selected, vs, now, frame, id, ApplyVehicle(prev, selected, vs[|vs| - 1], now, frame))
  {
    ApplyVehicleWellKeyed(prev, selected, vs[|vs| - 1], now, frame);
  }

  /** A located vehicle with key `id` refreshes its row, or creates it. */
  lemma RowAfterSame(t: Tables, selected: Option<Vehicle>, vs: seq<Vehicle>, now: int, frame: FrameId,
                     id: string, prev: Tables)
    requires vs != [] && RowAfter(t, selected, vs[..|vs| - 1], now, frame, id, prev)
    requires Located(vs[|vs| - 1]) && Key(vs[|vs| - 1]) == id
    ensures RowAfter(t, selected, vs, now, frame, id, ApplyVehicle(prev, selected, vs[|vs| - 1], now, frame))
  {
    ApplyVehicleWellKeyed(prev, selected, vs[|vs| - 1], now, frame);
  }

  /** Every row after a snapshot is applied is as `RowAfter` describes. */
  lemma {:induction false} AppliedRow(t: Tables, selected: Option<Vehicle>, vs: seq<Vehicle>, now: int, frame: FrameId, id: string)
    requires WellKeyed(t)
    ensures RowAfter(t, selected, vs, now, frame, id, ApplySnapshot(t, selected, vs, now, frame))
  {
    if vs != [] {
      var init, v := vs[..|vs| - 1], vs[|vs| - 1];
      AppliedRow(t, selected, init, now, frame, id);
      var prev := ApplySnapshot(t, selected, init, now, frame);
      if Located(v) && Key(v) == id {
        RowAfterSame(t, selected, vs, now, frame, id, prev);
      } else {
        RowAfterOther(t, selected, vs, now, frame, id, prev);
      }
    }
  }

  /**
   * After `updateVehicles(vs)` the tables still agree and hold a row for
   * exactly the keys of the located vehicles of `vs`: a vehicle without a
   * location neither creates a row nor keeps one alive.
   */
  lemma ReconcileKeys(t: Tables, selected: Option<Vehicle>, vs: seq<Vehicle>, now: int, frame: FrameId)
    requires WellKeyed(t)
    ensures var r := Reconcile(t, selected, vs, now, frame);
            && WellKeyed(r)
            && r.markers.Keys == LocatedKeys(vs) && r.animators.Keys == LocatedKeys(vs)
  {
    var applied := ApplySnapshot(t, selected, vs, now, frame);
    ApplySnapshotWellKeyed(t, selected, vs, now, frame);
    forall id | id in LocatedKeys(vs)
      ensures id in applied.markers
    {
      AppliedRow(t, selected, vs, now, frame, id);
    }
  }

  /**
   * A key the tables had and the snapshot reports keeps its marker as it
   * is and gets the last vehicle's data; its animator slides from where the
   * marker is drawn to that vehicle's position over 60 s.
   */
  lemma ReconcileRefreshes(t: Tables, selected: Option<Vehicle>, vs: seq<Vehicle>, now: int, frame: FrameId, id: string)
    requires WellKeyed(t) && id in t.markers && id in LocatedKeys(vs)
    ensures var r, last := Reconcile(t, selected, vs, now, frame), LastLocated(vs, id).value;
            && id in r.markers && id in r.animators
            && r.markers[id] == t.markers[id].(vehicle := last)
            && r.animators[id] == Heading(t.markers[id].marker.lngLat, Position(last), SlideDuration, now, frame)
  {
    AppliedRow(t, selected, vs, now, frame, id);
  }

  /**
   * A key the snapshot reports and the tables did not have gets one new
   * row: a marker at the first such vehicle's position, with that vehicle's
   * bearing icon, hidden when a selection is active and the vehicle is
   * unrelated to it; the row holds the last such vehicle's data, and its
   * animator is idle unless the key occurs more than once.
   */
  lemma ReconcileCreates(t: Tables, selected: Option<Vehicle>, vs: seq<Vehicle>, now: int, frame: FrameId, id: string)
    requires WellKeyed(t) && id !in t.markers && id in LocatedKeys(vs)
    ensures var r, first, last := Reconcile(t, selected, vs, now, frame), FirstLocated(vs, id).value, LastLocated(vs, id).value;
            && id in r.markers && id in r.animators
            && r.markers[id] == NewRow(selected, first, Position(first)).(vehicle := last)
            && r.animators[id] == if LocatedCount(vs, id) == 1 then Initial
                                  else Heading(Position(first), Position(last), SlideDuration, now, frame)
  {
    AppliedRow(t, selected, vs, now, frame, id);
  }

  /** The second pass of the same snapshot over one row: the row stays, the animator is retargeted. */
  lemma SameSnapshotTwiceRow(t: Tables, selected: Option<Vehicle>, vs: seq<Vehicle>, now: int, frame: FrameId,
                             now': int, frame': FrameId, id: string)
    requires WellKeyed(t) && id in LocatedKeys(vs)
    ensures var r1 := Reconcile(t, selected, vs, now, frame);
            var r2 := Reconcile(r1, selected, vs, now', frame');
            && id in r1.markers && id in r2.markers && id in r2.animators
            && r2.markers[id] == r1.markers[id]
            && r2.animators[id] == Heading(r1.markers[id].marker.lngLat, Position(LastLocated(vs, id).value),
                                           SlideDuration, now', frame')
  {
    var r1 := Reconcile(t, selected, vs, now, frame);
    ReconcileKeys(t, selected, vs, now, frame);
    if id in t.markers {
      ReconcileRefreshes(t, selected, vs, now, frame, id);
    } else {
      ReconcileCreates(t, selected, vs, now, frame, id);
    }
    ReconcileRefreshes(r1, selected, vs, now', frame', id);
  }

  /**
   * Applying the same snapshot twice in a row: the second pass creates and
   * removes no row and leaves every row as it was; it only retargets each
   * animator, from where the marker is drawn to the same position.
   */
  lemma SameSnapshotTwice(t: Tables, selected: Option<Vehicle>, vs: seq<Vehicle>, now: int, frame: FrameId,
                          now': int, frame': FrameId)
    requires WellKeyed(t)
    ensures var r1 := Reconcile(t, selected, vs, now, frame);
            var r2 := Reconcile(r1, selected, vs, now', frame');
            && r2.markers == r1.markers
            && r2.animators.Keys == r1.animators.Keys
            && forall id :: id in r1.markers ==>
                 id in r2.animators && r2.animators[id] == Heading(r1.markers[id].marker.lngLat, Position(LastLocated(vs, id).value),
                                             SlideDuration, now', frame')
  {
    var r1 := Reconcile(t, selected, vs, now, frame);
    ReconcileKeys(t, selected, vs, now, frame);
    ReconcileKeys(r1, selected, vs, now', frame');
    forall id | id in r1.markers
      ensures var r2 := Reconcile(r1, selected, vs, now', frame');
              && r2.markers[id] == r1.markers[id]
              && r2.animators[id] == Heading(r1.markers[id].marker.lngLat, Position(LastLocated(vs, id).value),
                                             SlideDuration, now', frame')
    {
      SameSnapshotTwiceRow(t, selected, vs, now, frame, now', frame', id);
    }
  }

  /** `clearMarkers` on tables that agree leaves both empty. */
  lemma ClearEmpties(t: Tables)
    requires WellKeyed(t)
    ensures Cleared(t) == Tables(map[], map[])
  {
    forall id | id in t.animators
      ensures id in VehicleKeys(t.markers)
    {
      assert Key(t.markers[id].vehicle) == id;
    }
  }

  /**
   * What a replace-mode fetch makes of the tables: cleared, the old
   * snapshot applied at `now`, then the live one at `settledAt`.
   */
  function Replace(t: Tables, selected: Option<Vehicle>, oldVs: seq<Vehicle>, vs: seq<Vehicle>,
                   now: int, settledAt: int, frame: FrameId): Tables
  {
    Reconcile(Reconcile(Cleared(t), selected, oldVs, now, frame), selected, vs, settledAt, frame)
  }

  /**
   * After a replace-mode fetch every row is new and the keys are those of
   * the live snapshot. A key the old snapshot also reports has its marker
   * where the old snapshot put it (created for the old vehicle, which its
   * click handler keeps) and slides from there to its live position; any
   * other key starts at its live position.
   */
  lemma ReplaceRows(t: Tables, selected: Option<Vehicle>, oldVs: seq<Vehicle>, vs: seq<Vehicle>,
                    now: int, settledAt: int, frame: FrameId, id: string)
    requires WellKeyed(t)
    ensures var r := Replace(t, selected, oldVs, vs, now, settledAt, frame);
            && WellKeyed(r) && r.markers.Keys == LocatedKeys(vs)
            && (id in LocatedKeys(vs) && id in LocatedKeys(oldVs) ==>
                  var o, last := FirstLocated(oldVs, id).value, LastLocated(vs, id).value;
                  && r.markers[id] == NewRow(selected, o, Position(o)).(vehicle := last)
                  && r.animators[id] == Heading(Position(o), Position(last), SlideDuration, settledAt, frame))
            && (id in LocatedKeys(vs) && id !in LocatedKeys(oldVs) ==>
                  var first, last := FirstLocated(vs, id).value, LastLocated(vs, id).value;
                  && r.markers[id] == NewRow(selected, first, Position(first)).(vehicle := last)
                  && r.animators[id] == if LocatedCount(vs, id) == 1 then Initial
                                        else Heading(Position(first), Position(last), SlideDuration, settledAt, frame))
  {
    var c := Cleared(t);
    ClearEmpties(t);
    var mid := Reconcile(c, selected, oldVs, now, frame);
    ReconcileKeys(c, selected, oldVs, now, frame);
    ReconcileKeys(mid, selected, vs, settledAt, frame);
    if id in LocatedKeys(vs) && id in LocatedKeys(oldVs) {
      ReconcileCreates(c, selected, oldVs, now, frame, id);
      ReconcileRefreshes(mid, selected, vs, settledAt, frame, id);
    }
    if id in LocatedKeys(vs) && id !in LocatedKeys(oldVs) {
      ReconcileCreates(mid, selected, vs, settledAt, frame, id);
    }
  }

  /**
   * The animation frame of row `id` at time `now`: an animating animator
   * moves its marker to the eased point and requests the next frame `next`
   * or stops; an idle one changes nothing.
   */
  function AdvanceRow(t: Tables, id: string, now: int, next: FrameId): Tables
  {
    if id in t.animators && t.animators[id].isAnimating then
      var s := t.animators[id];
      Tables(if id in t.markers
             then t.markers[id := t.markers[id].(marker := t.markers[id].marker.(lngLat := Shown(s, now)))]
             else t.markers,
             t.animators[id := Advanced(s, now, next)])
    else t
  }

  /**
   * A refreshed row arrives: once the 60 s have passed, its next frame puts
   * the marker exactly at the reported position and ends the slide.
   */
  lemma SlideArrives(t: Tables, selected: Option<Vehicle>, vs: seq<Vehicle>, now: int, frame: FrameId,
                     id: string, later: int, next: FrameId)
    requires WellKeyed(t) && id in t.markers && id in LocatedKeys(vs) && later >= now + SlideDuration
    ensures var r := AdvanceRow(Reconcile(t, selected, vs, now, frame), id, later, next);
            && id in r.markers && id in r.animators
            && r.markers[id].marker.lngLat == Position(LastLocated(vs, id).value)
            && !r.animators[id].isAnimating && r.animators[id].animationId.None?
  {
    ReconcileRefreshes(t, selected, vs, now, frame, id);
    var s := Reconcile(t, selected, vs, now, frame).animators[id];
    SlideEndsAtTarget(s, later, next, later, next);
  }

  /** A frame keeps the tables well keyed and touches no other row. */
  lemma AdvanceRowLocal(t: Tables, id: string, now: int, next: FrameId, other: string)
    requires WellKeyed(t) && other != id
    ensures var r := AdvanceRow(t, id, now, next);
            && WellKeyed(r)
            && (other in r.markers ==> other in t.markers && r.markers[other] == t.markers[other])
            && (other in r.animators ==> other in t.animators && r.animators[other] == t.animators[other])
  {
  }

  /** With no selection active, `updateVehicles` shows every marker it creates, so a fully shown table stays so. */
  lemma ReconcileKeepsShown(t: Tables, vs: seq<Vehicle>, now: int, frame: FrameId)
    requires WellKeyed(t) && AllShown(t.markers)
    ensures AllShown(Reconcile(t, None, vs, now, frame).markers)
  {
    var r := Reconcile(t, None, vs, now, frame);
    ReconcileKeys(t, None, vs, now, frame);
    forall id | id in r.markers
      ensures !r.markers[id].marker.hidden
    {
      if id in t.markers {
        ReconcileRefreshes(t, None, vs, now, frame, id);
      } else {
        ReconcileCreates(t, None, vs, now, frame, id);
      }
    }
  }
}
