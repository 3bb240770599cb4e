/**
 * A map marker, reduced to what the core changes on it, and the
 * `MarkerAnimator` that slides one marker towards a target over time.
 * Wall-clock time (`Date.now()`) is a parameter; `requestAnimationFrame`
 * is modelled by the id it returns, which the caller supplies.
 */
module MarkerAnimation {
  import opened Wrappers
  import opened Vehicles
  import opened Easing

  /** A `requestAnimationFrame` handle: browsers hand out positive ids, so a held id is truthy. */
  type FrameId = id: int | 0 < id witness 1

  /** A MapLibre marker as the animator sees it: the point it is drawn at (`getLngLat`/`setLngLat`). */
  class Marker {
    var lngLat: LngLat

    constructor (at: LngLat)
      ensures lngLat == at
    {
      lngLat := at;
    }
  }

  /** The animator's mutable fields, as one value. */
  datatype AnimState = AnimState(
    startTime: int,
    startLngLat: LngLat,
    endLngLat: LngLat,
    duration: Millis,
    animationId: Option<FrameId>,
    isAnimating: bool)

  /** The field initialisers of a new animator. */
  const Initial := AnimState(0, LngLat(0.0, 0.0), LngLat(0.0, 0.0), 60000, None, false)

  /** The state right after `slideTo(to, duration)` at time `now` from the displayed point `from`. */
  function Heading(from: LngLat, to: LngLat, duration: Millis, now: int, frame: FrameId): AnimState
  {
    AnimState(now, from, to, duration, Some(frame), true)
  }

  /** What `stop()` leaves: no frame pending and not animating; the slide parameters are kept. */
  function Stopped(s: AnimState): (r: AnimState)
    ensures r.animationId.None? && !r.isAnimating
    ensures r.startTime == s.startTime && r.duration == s.duration
    ensures r.startLngLat == s.startLngLat && r.endLngLat == s.endLngLat
  {
    s.(animationId := None, isAnimating := false)
  }

  /** The point a frame at time `now` shows. */
  function Shown(s: AnimState, now: int): LngLat
  {
    FramePoint(s.startLngLat, s.endLngLat, now - s.startTime, s.duration)
  }

  /**
   * The state after a frame at time `now`: an inert animator stays as it
   * is; an animating one requests the next frame (`next`) until the slide's
   * duration has elapsed, and at that frame stops.
   */
  function Advanced(s: AnimState, now: int, next: FrameId): (r: AnimState)
    ensures !s.isAnimating ==> r == s
    ensures s.isAnimating && now - s.startTime < s.duration ==>
              r == s.(animationId := Some(next)) && r.isAnimating
    ensures s.isAnimating && now - s.startTime >= s.duration ==> r == Stopped(s)
  {
    if !s.isAnimating then s
    else if Progress(now - s.startTime, s.duration) < 1.0 then s.(animationId := Some(next))
    else Stopped(s)
  }

  /** The frame `slideTo` runs at once shows the point the marker was at, and requests the next frame. */
  lemma SlideStartsWhereShown(from: LngLat, to: LngLat, duration: Millis, now: int, frame: FrameId)
    ensures Shown(Heading(from, to, duration, now, frame), now) == from
    ensures Advanced(Heading(from, to, duration, now, frame), now, frame) == Heading(from, to, duration, now, frame)
  {
    FirstFrameAtStart(from, to, duration);
  }

  /** A frame once the duration has elapsed shows the target and ends the slide; no later frame moves anything. */
  lemma SlideEndsAtTarget(s: AnimState, now: int, next: FrameId, later: int, next': FrameId)
    requires s.isAnimating && now - s.startTime >= s.duration
    ensures Shown(s, now) == s.endLngLat
    ensures var r := Advanced(s, now, next);
            !r.isAnimating && r.animationId.None? && Advanced(r, later, next') == r
  {
    FinalFrameAtTarget(s.startLngLat, s.endLngLat, now - s.startTime, s.duration);
  }

  /** After `stop()`, a frame changes nothing, whenever it comes. */
  lemma StoppedIsInert(s: AnimState, now: int, next: FrameId)
    ensures Advanced(Stopped(s), now, next) == Stopped(s)
  {
  }

  /** While a slide runs, every frame shows a point within the box spanned by its start and end. */
  lemma ShownWithinSlide(s: AnimState, now: int)
    requires s.startTime <= now
    ensures var p, a, b := Shown(s, now), s.startLngLat, s.endLngLat;
            && (a.lng <= b.lng ==> a.lng <= p.lng <= b.lng) && (b.lng <= a.lng ==> b.lng <= p.lng <= a.lng)
            && (a.lat <= b.lat ==> a.lat <= p.lat <= b.lat) && (b.lat <= a.lat ==> b.lat <= p.lat <= a.lat)
  {
    FrameWithinBox(s.startLngLat, s.endLngLat, now - s.startTime, s.duration);
  }

  class MarkerAnimator {
    var startTime: int
    var startLngLat: LngLat
    var endLngLat: LngLat
    var duration: Millis
    var animationId: Option<FrameId>
    var isAnimating: bool
    const marker: Marker

    ghost function State(): AnimState
      reads this
    {
      AnimState(startTime, startLngLat, endLngLat, duration, animationId, isAnimating)
    }

    /** A frame is pending exactly while the animator is animating. */
    ghost predicate Consistent()
      reads this
    {
      isAnimating <==> animationId.Some?
    }

    constructor (marker: Marker)
      ensures this.marker == marker && State() == Initial && Consistent()
    {
      startTime := 0;
      startLngLat := LngLat(0.0, 0.0);
      endLngLat := LngLat(0.0, 0.0);
      duration := 60000;
      animationId := None;
      isAnimating := false;
      this.marker := marker;
    }

    /**
     * Cancels any pending frame, restarts from the point the marker shows
     * now and runs the first frame at once; that frame shows the start
     * point, so the marker does not move, and it schedules the next frame.
     */
    method SlideTo(lngLat: LngLat, duration: Millis, now: int, frame: FrameId)
      modifies this, marker`lngLat
      ensures State() == Heading(old(marker.lngLat), lngLat, duration, now, frame)
      ensures marker.lngLat == old(marker.lngLat) && Consistent()
    {
      // a pending frame (`animationId`) is cancelled here; the frame below replaces it
      startTime := now;
      startLngLat := marker.lngLat;
      endLngLat := lngLat;
      this.duration := duration;
      isAnimating := true;
      Animate(now, frame);
      SlideStartsWhereShown(startLngLat, lngLat, duration, now, frame);
    }

    /**
     * One animation frame at time `now`. An inert animator does nothing;
     * otherwise the marker moves to the eased point and, unless progress
     * has reached 1, the next frame is requested under id `frame`.
     */
    method Animate(now: int, frame: FrameId)
      modifies this`animationId, this`isAnimating, marker`lngLat
      ensures State() == Advanced(old(State()), now, frame)
      ensures marker.lngLat == if old(isAnimating) then Shown(old(State()), now) else old(marker.lngLat)
      ensures old(Consistent()) ==> Consistent()
    {
      if !isAnimating {
        return;
      }
      var progress := Progress(now - startTime, duration);
      var easeProgress := Ease(progress);
      var currentLng := startLngLat.lng + (endLngLat.lng - startLngLat.lng) * easeProgress;
      var currentLat := startLngLat.lat + (endLngLat.lat - startLngLat.lat) * easeProgress;
      marker.lngLat := LngLat(currentLng, currentLat);
      if progress < 1.0 {
        animationId := Some(frame);
      } else {
        isAnimating := false;
        animationId := None;
      }
    }

    /** Cancels any pending frame and leaves the animator inert; nothing else changes. */
    method Stop()
      modifies this`animationId, this`isAnimating
      ensures State() == Stopped(old(State())) && Consistent()
    {
      if animationId.Some? {
        // cancelAnimationFrame(animationId)
        animationId := None;
      }
      isAnimating := false;
    }
  }
}
