# Transit map client: marker tables, selection, route arrows and marker animation

This project models the core of a browser client that shows live transit
vehicles on a map (`script.ts`).

Every minute the client fetches a snapshot of vehicles and reconciles its marker tables with it:
- a known vehicle slides to its new position over 60 s;
- a new vehicle gets a marker;
- a vehicle without a location is skipped;
- a vehicle no longer reported disappears.

After a long absence the client replaces its markers instead of sliding them. It first shows where each vehicle was a little while ago, then slides it to where it is now.

Clicking a vehicle while nothing is selected does three things:
- it hides every vehicle off its route-direction;
- it fetches the trip's schedule;
- it draws the route with direction arrows.

Clicking any vehicle while one is selected only clears the selection and shows every marker again.

The URL hash chooses the region.

The Dafny modules follow the pieces of the client:

| module | file | contents |
|---|---|---|
| `Wrappers` | wrappers.dfy | `Option` |
| `Vehicles` | vehicles.dfy | the feed's vehicle record, the table key `vehicle_id + trip_id`, the located keys of a snapshot |
| `Easing` | easing.dfy | the clamped progress, the ease-in-out polynomial, interpolation |
| `MarkerAnimation` | animator.dfy | the `MarkerAnimator` class, proved against the pure transitions `Heading`, `Advanced`, `Stopped`, `Shown` |
| `RouteArrows` | arrows.dfy | the arrow placement walk of `addArrowsToRoute` and its characterisation |
| `Places` | places.dfy | the places and the hash → place switch of `setPlace` |
| `MarkerTables` | tables.dfy | the marker and animator tables as values, and what one `updateVehicles`, `clearMarkers` or replace-mode fetch makes of them |
| `MapApp` | app.dfy | the `MapApplication` class: its methods change the tables, the selection, the route arrows and the fetch state in place, each proved to produce exactly what the `MarkerTables` functions say |

The following become parameters:
- wall-clock times (`Date.now()`) and animation frame ids (`requestAnimationFrame`);
- the answers of the two HTTP endpoints, where `None` stands for a failed request or an unreadable answer;
- the URL hash;
- `document.hidden`;
- the haversine distance and the bearing between two points.

The two-stage shape of the asynchronous handlers is kept:
- `FetchAndUpdate` returns the request it sends. `FinishFetch` applies the answer.
- `ClickMarker` returns the trip id whose schedule it requests. `ScheduleArrived` applies that schedule.

Two behaviours of the code worth knowing:
- A marker's bearing icon comes from the feed and is read only when the marker is created (`NewRow`). A bearing of `0` draws no icon, because the test is a truthiness test.
- A route of length L does not carry ⌊L/1000⌋ arrows. When an arrow is placed, the length of its own segment is dropped, so two 1000 m segments carry one arrow (`TwoSpacingsOneArrow`). The proved bound is one arrow per 1000 m walked before it (`ArrowsNeedSpacing`).

## Model

| member | source | states |
|---|---|---|
| Vehicles.KeySeparatesTrips | script.ts:300-302 | two trips of the same vehicle get different table keys |
| Vehicles.KeyCanCollide | script.ts:300-302 | the key has no separator, so the distinct pairs ("1","23") and ("12","3") share the key "123" |
| Vehicles.LocatedKeysSpec | script.ts:305-310 | the `incomingVehicles` set holds a key exactly when some vehicle of the snapshot with a location has it |
| Vehicles.LastLocatedIsLast | script.ts:307-320 | the vehicle whose data a row ends up holding exists exactly for the incoming keys; it is a located vehicle of the snapshot with that key, and no vehicle after it has the key |
| Vehicles.FirstLocatedIsFirst | script.ts:307-323 | the vehicle a new marker is created for exists exactly for the incoming keys; it is a located vehicle of the snapshot with that key, and no vehicle before it has the key |
| Vehicles.LocatedCount | script.ts:307-323 | a key occurs in the snapshot exactly when it is incoming; when it occurs once, the first and last vehicles with it coincide |
| Easing.Progress | script.ts:71-72 | progress is at most 1, equals 1 exactly once the duration has elapsed, is non-negative for non-negative elapsed time, and is 0 at the start |
| Easing.EaseFixedPoints | script.ts:75-77 | the ease-in-out curve maps 0, 1/2 and 1 to themselves |
| Easing.EaseInUnit | script.ts:75-77 | on [0, 1] the curve stays in [0, 1], and it is below 1/2 exactly in the first half |
| Easing.EaseMonotone | script.ts:75-77 | the curve never runs backwards on [0, 1] |
| Easing.LerpBetween | script.ts:79-80 | for t in [0, 1] an interpolated coordinate lies between its two ends |
| Easing.InterpolateEnds | script.ts:79-80 | interpolation at 0 gives the start and at 1 the end |
| Easing.FirstFrameAtStart | script.ts:71-82 | a frame at elapsed time 0 shows the start point |
| Easing.FinalFrameAtTarget | script.ts:71-82 | a frame once the duration has elapsed shows exactly the target |
| Easing.FrameWithinBox | script.ts:71-82 | no frame overshoots: every frame lies in the box spanned by start and target |
| Easing.FramesAdvance | script.ts:71-80 | later frames are never farther back: the eased progress is monotone in time |
| MarkerAnimation.Stopped | script.ts:92-98 | after `stop` no frame is pending and the animator is idle; the slide's parameters are kept |
| MarkerAnimation.Advanced | script.ts:68-90 | a frame leaves an idle animator unchanged, requests the next frame while the duration has not elapsed, and otherwise stops the slide |
| MarkerAnimation.StoppedIsInert | script.ts:68-98 | after `stop`, a frame changes nothing, whenever it comes |
| MarkerAnimation.SlideStartsWhereShown | script.ts:54-66 | the frame `slideTo` runs at once shows the point the marker was drawn at, so a retarget never makes a marker jump |
| MarkerAnimation.SlideEndsAtTarget | script.ts:84-89 | a frame at progress 1 shows the end point and leaves the animator idle with no frame pending; later frames change nothing |
| MarkerAnimation.ShownWithinSlide | script.ts:71-82 | every frame of a slide shows a point within the box spanned by its start and end |
| MarkerAnimation.MarkerAnimator.constructor | script.ts:42-52 | a new animator holds its marker and the field initialisers, with no frame pending |
| MarkerAnimation.MarkerAnimator.SlideTo | script.ts:54-66 | the new state starts at the marker's displayed point, now, heads to the target and requests a frame; the marker does not move |
| MarkerAnimation.MarkerAnimator.Animate | script.ts:68-90 | the new state is `Advanced` of the old one; an animating animator moves its marker to the eased point, an idle one leaves it; a frame is pending exactly while animating |
| MarkerAnimation.MarkerAnimator.Stop | script.ts:92-98 | the new state is `Stopped` of the old one |
| RouteArrows.WalkToAgrees | script.ts:508-537 | after n segments the walk holds exactly the running distance `AccBefore` and the arrows at the arrow indices so far |
| RouteArrows.WalkPlacesArrowsFor | script.ts:508-537 | the complete walk places exactly `ArrowsFor(shape)` |
| RouteArrows.ArrowIndicesExact | script.ts:512-535 | an arrow stands at segment i exactly when the running distance reaching it is at least 1000 |
| RouteArrows.ArrowIndicesIncreasing | script.ts:512-530 | arrows are placed in walk order, at strictly increasing segments |
| RouteArrows.NoArrowAtStartNorAdjacent | script.ts:509-535 | no arrow at the first segment, and never two on adjacent segments |
| RouteArrows.ArrowCountBound | script.ts:512-535 | at most half of the segments carry an arrow |
| RouteArrows.ArrowsNeedSpacing | script.ts:509-535 | with non-negative segment lengths, every arrow is paid for by 1000 m walked before it |
| RouteArrows.TwoSpacingsOneArrow | script.ts:512-535 | two 1000 m segments carry one arrow, at the second segment |
| RouteArrows.ShortRouteNoArrows | script.ts:512 | a shape of fewer than two points gets no arrow |
| RouteArrows.ArrowsForSpec | script.ts:512-530 | arrow k stands at the start of its segment, points along it, and that segment is past the start with a running distance of at least 1000 |
| Places.PlaceForHash | script.ts:218-237 | only `#SF`, `#BAYAREA` and `#NYC` select a place, the one whose name follows the `#`, and never the initial view |
| MarkerTables.NewRow | script.ts:357-435 | the row `createMarker` adds holds the vehicle (also for its click handler) at the given position; it carries a bearing icon exactly when the vehicle has a non-zero bearing, rotated by that bearing; it is hidden exactly when a selection is active and the vehicle is off its route-direction |
| MarkerTables.ApplySnapshotWellKeyed | script.ts:307-324 | applying a snapshot keeps both tables on the same keys, each row under its vehicle's key |
| MarkerTables.AppliedRow | script.ts:307-324 | each row after the snapshot is applied is as before, refreshed with the last vehicle's data and retargeted, or created for the first vehicle |
| MarkerTables.ReconcileKeys | script.ts:304-336 | after `updateVehicles` the tables still agree and both hold exactly the keys of the located vehicles of the snapshot |
| MarkerTables.ReconcileRefreshes | script.ts:313-320 | a known key keeps its marker, takes the last vehicle's data and slides from the displayed point to that vehicle's position over 60 s |
| MarkerTables.ReconcileCreates | script.ts:321-323 | a new key gets one marker at the first vehicle's position and an idle animator, which only a second vehicle with that key retargets |
| MarkerTables.SameSnapshotTwice | script.ts:304-338 | applying the same snapshot again creates and removes no row and changes no marker; it only retargets each animator to the same position |
| MarkerTables.ClearEmpties | script.ts:289-298 | `clearMarkers` on agreeing tables leaves both empty |
| MarkerTables.ReplaceRows | script.ts:275-281 | after a replace-mode fetch the keys are the live snapshot's; a key also in the old snapshot starts where the old snapshot put it and slides to its live position; other keys start at their live position |
| MarkerTables.SlideArrives | script.ts:68-90 | 60 s after a refresh, the row's next frame puts the marker exactly at the reported position and ends the slide |
| MarkerTables.AdvanceRowLocal | script.ts:68-90 | an animation frame keeps the tables agreeing and touches no other row |
| MarkerTables.ReconcileKeepsShown | script.ts:430-435 | with no selection active, `updateVehicles` creates only shown markers, so a fully shown table stays so |
| MapApp.ShouldReplace | script.ts:206 | replace exactly when now and the last update are more than 120000 ms apart, in either direction; exactly 2 minutes slides |
| MapApp.HideRow | script.ts:438-447 | a marker ends hidden exactly when it was hidden or its vehicle is off the given route-direction; nothing else in the row changes |
| MapApp.ShowRow | script.ts:449-455 | a marker ends shown; nothing else in the row changes |
| MapApp.MapApplication.constructor | script.ts:133-144 | empty tables, no selection, schedule, route layer or arrows, the initial view, an active user and no update yet |
| MapApp.MapApplication.CreateMarker | script.ts:340-436 | the row `NewRow` is added under the vehicle's key with an idle animator |
| MapApp.MapApplication.UpdateVehicles | script.ts:304-338 | the tables become `Reconcile` of the old ones, and they still agree; the update time is now; with no selection every marker stays shown |
| MapApp.MapApplication.RemoveAbsent | script.ts:326-336 | exactly the rows whose key is not incoming are deleted from both tables |
| MapApp.MapApplication.ClearMarkers | script.ts:289-298 | both tables end empty, as `Cleared` of the old ones |
| MapApp.MapApplication.AnimationFrame | script.ts:68-90 | the tables become `AdvanceRow` of the old ones: only the row's marker and animator change |
| MapApp.MapApplication.HideSomeMarkers | script.ts:438-447 | every row becomes `HideRow` of itself; no row is added or removed |
| MapApp.MapApplication.ShowAllMarkers | script.ts:449-460 | every row becomes `ShowRow` of itself; selection, schedule, route layer and arrows are cleared |
| MapApp.MapApplication.ClearRouteShapes | script.ts:581-591 | no route layer and no arrows remain |
| MapApp.MapApplication.DrawRouteShape | script.ts:462-506 | an empty shape changes nothing; otherwise the layer is named by now and the arrows are exactly `ArrowsFor(shape)` |
| MapApp.MapApplication.AddArrowsToRoute | script.ts:508-537 | the arrows placed are exactly `ArrowsFor(shape)`, appended to those already there |
| MapApp.MapApplication.ClickMarker | script.ts:380-392 | with a selection active every marker is shown and the selection cleared, with no request; otherwise the markers off the clicked vehicle's route-direction are hidden, it is selected and its trip's schedule requested |
| MapApp.MapApplication.ScheduleArrived | script.ts:414-421 | a schedule is kept; a non-empty route is drawn in the vehicle's colour with exactly `ArrowsFor(shape)`, and an empty one leaves layer and arrows as they were; a failure changes nothing |
| MapApp.MapApplication.ScheduleArrivedCorrected | script.ts:414-421 | as intended: a schedule for the vehicle still selected is kept and its route drawn as in `ScheduleArrived`; a failure, or a schedule for any other vehicle or for no selection, changes nothing; with nothing selected there is never a schedule, route layer or arrow |
| MapApp.MapApplication.FinishFetch | script.ts:246-286 | a failure changes no table and not the update time; a slide fetch gives `Reconcile` of the live snapshot; a replace fetch gives `Replace`: clear, old snapshot, then live snapshot after the pause |
| MapApp.MapApplication.FetchAndUpdate | script.ts:239-287 | the request is sent exactly when the user is active, for the current place, with `include_old` equal to the replace flag; an inactive user's fetch changes nothing; an active one ends as `FinishFetch` says |
| MapApp.MapApplication.OnVisibilityChange | script.ts:200-209 | hiding makes the user inactive and changes nothing else; showing after an update makes the user active and fetches, replacing exactly when `ShouldReplace` says; the tables and update time end as `FinishFetch` says for that mode; showing before any update changes nothing |
| MapApp.MapApplication.OnVisibilityChangeCorrected | script.ts:200-209 | as intended: the user is active exactly when the page is shown; requests, tables and update time are as in `OnVisibilityChange` |
| MapApp.MapApplication.SetPlace | script.ts:218-237 | a known hash makes its place current and sends a replace request; any other hash changes nothing |
| MapApp.MapApplication.OnHashChange | script.ts:194-199 | a known hash makes its place current whether or not the user is active; an active user's navigation after an update sends the same replace request twice, before any update once; an inactive user sends nothing; an unknown hash changes nothing |
| MapApp.MapApplication.OnHashChangeCorrected | script.ts:194-199 | as intended: a known hash makes its place current whether or not the user is active, and an active user's navigation sends one replace request; an inactive user sends nothing; an unknown hash changes nothing |
| MapApp.HiddenBeforeFirstUpdate | script.ts:200-215 | hide the page before the first update, then load, show it again and let the interval tick: no request is ever sent, the user stays inactive, and the map stays empty with no update recorded |
| MapApp.HiddenBeforeFirstUpdateCorrected | script.ts:200-215 | with the corrected handler, the same sequence ends with the user active and the tick sending a slide request; with an answer, the update time is recorded and the tables hold exactly the snapshot's located keys |
| MapApp.LateScheduleAfterDeselect | script.ts:380-421 | a schedule that arrives after the selection was cleared is still kept and its route drawn, with nothing selected |
| MapApp.LateScheduleAfterDeselectCorrected | script.ts:380-421 | with the corrected continuation, the late schedule is dropped: no schedule, route layer or arrows remain |
| MapApp.NavigationFetchesTwice | script.ts:194-199 | after the first update, navigating to `#SF` sends two identical replace requests |
| MapApp.NavigationFetchesTwiceCorrected | script.ts:194-199 | with the corrected handler it sends one |

## Left out

- Map and DOM: MapLibre map construction, tile styling, `flyTo`, route layer and source creation, marker elements, and the schedule HTML. Markers are records (position, hidden, bearing icon), and deleting a row stands for `marker.remove()`. `clearRouteShapes` is modelled as if `map.getLayer` always finds the layer.
- Network: HTTP requests, JSON parsing and error logging. An answer is an input: `None` for any failure.
- Event wiring and scheduling:
  - the map click and Escape key, which both call `ShowAllMarkers`;
  - `setInterval`, where a tick is a `FetchAndUpdate(false)` call;
  - the load handler, where load is a `FetchAndUpdate(true)` call;
  - the constructor's first `setPlace`, which is a `SetPlace` call;
  - the `DOMContentLoaded` handlers for the info panel and its toggle icon.
- Asynchronous interleaving: a handler runs to completion before anything else happens. The 1 s settle pause is the later time `settledAt`. Other callbacks that run during an `await` are not modelled, apart from the late schedule in the findings.
- Trigonometry: `calculateDistance` and `calculateBearing` are function parameters.
- MarkerTables: animators are held as values of their state (`AnimState`), not as objects sharing their marker. The sharing between an animator and its marker is modelled once, in the `MarkerAnimator` class. The tables describe its effect: a frame moves that row's marker.
- MapApp.MapApplication.AnimationFrame: one frame id `next` is passed for the frame it requests. Every snapshot update passes one `frame` id to all the slides it starts. Fresh ids per call are not modelled.
- MapApp.MapApplication.AddArrowsToRoute: the arrows are gathered in a local sequence during the walk and appended once the walk ends. Nothing reads `routeArrows` during the walk, so the resulting state is the same.
- `routeLayerId` is kept as the drawing time only, not as the string `route-<time>`.
- Easing.Progress: `duration` is a positive number of milliseconds. The only caller passes 60000. In the code a zero duration would not throw: a positive elapsed time over 0 is `Infinity`, clamped to 1, and `0 / 0` is `NaN`.
- Floating point: coordinates, distances and easing are exact reals, not IEEE doubles. "Exactly at the target" (`Easing.FinalFrameAtTarget`, `MarkerAnimation.SlideEndsAtTarget`, `MarkerTables.SlideArrives`) holds in real arithmetic. In doubles, `a + (b - a) * 1` can miss `b` by one unit in the last place.
- Tables as JavaScript objects: `markers` and `animators` are plain objects (script.ts:133-134), so a key that names an `Object.prototype` member (`constructor`, `toString`) passes the test at script.ts:313 with no row. The call at script.ts:317 then throws, and `updateVehicles` stops partway; in replace mode this happens after `clearMarkers`. The model's tables are maps with no such keys.

## Findings

| source | as written | input that shows it | evidently intended | confidence | as-written member | corrected member |
|---|---|---|---|---|---|---|
| script.ts:200-209 | showing the page sets `userActive = true` only when `lastUpdatedAt` is set | hide the page before the load fetch is sent, or after a failed first fetch, with no other fetch in flight; then show it again: every later fetch returns early, so the map stays empty | showing the page reactivates the user whether or not an update has happened | medium, not executed | MapApp.HiddenBeforeFirstUpdate | MapApp.MapApplication.OnVisibilityChangeCorrected |
| script.ts:194-199 | the `hashchange` handler calls `fetchAndUpdate(true)` after `setPlace()`, which already fetched | navigate to `#SF` after the first update: two identical `/visualMap` replace requests | one fetch per navigation | medium, not executed | MapApp.NavigationFetchesTwice | MapApp.MapApplication.OnHashChangeCorrected |
| script.ts:414-418 | the click handler keeps the schedule and draws its route whenever the request settles | click a vehicle, click it again before its schedule arrives: the route is drawn with no vehicle selected and stays until the next deselect or the next route drawn | drop a schedule that arrives after the selection changed | medium, not executed | MapApp.LateScheduleAfterDeselect | MapApp.MapApplication.ScheduleArrivedCorrected |
