/**
 * The arithmetic of one animation frame of a marker animator: clamped
 * progress, the ease-in-out curve and the interpolation of `[lng, lat]`.
 * Times are integer milliseconds; coordinates and the curve are exact reals.
 */
module Easing {
  import opened Vehicles

  /** An animation duration in milliseconds; script.ts only ever passes 60000. */
  type Millis = d: int | 0 < d witness 60000

  /** `Math.min(elapsed / duration, 1)`. */
  function Progress(elapsed: int, duration: Millis): (p: real)
    ensures p <= 1.0
    ensures p == 1.0 <==> elapsed >= duration
    ensures 0 <= elapsed ==> 0.0 <= p
    ensures elapsed == 0 ==> p == 0.0
  {
    var ratio := elapsed as real / duration as real;
    if ratio < 1.0 then ratio else 1.0
  }

  function Cube(x: real): real
  {
    x * x * x
  }

  /** The easing of `animate`: `2p²` below one half, `1 - (2 - 2p)³ / 2` from one half on. */
  function Ease(p: real): real
  {
    if p < 0.5 then 2.0 * p * p else 1.0 - Cube(-2.0 * p + 2.0) / 2.0
  }

  /** `a + (b - a) * t`, the per-coordinate interpolation. */
  function Lerp(a: real, b: real, t: real): real
  {
    a + (b - a) * t
  }

  /** The point shown at eased progress `t` between `from` and `to`. */
  function Interpolate(from: LngLat, to: LngLat, t: real): LngLat
  {
    LngLat(Lerp(from.lng, to.lng, t), Lerp(from.lat, to.lat, t))
  }

  /** The point a frame shows `elapsed` milliseconds into an animation. */
  function FramePoint(from: LngLat, to: LngLat, elapsed: int, duration: Millis): LngLat
  {
    Interpolate(from, to, Ease(Progress(elapsed, duration)))
  }

  lemma EaseFixedPoints()
    ensures Ease(0.0) == 0.0 && Ease(0.5) == 0.5 && Ease(1.0) == 1.0
  {
    assert Cube(1.0) == 1.0;
    assert Cube(0.0) == 0.0;
  }

  lemma SquareMonotone(x: real, y: real)
    requires 0.0 <= x <= y
    ensures x * x <= y * y
  {
    assert x * x <= x * y by {
      assert x * (y - x) >= 0.0;
    }
    assert x * y <= y * y by {
      assert y * (y - x) >= 0.0;
    }
  }

  lemma CubeMonotone(x: real, y: real)
    requires 0.0 <= x <= y
    ensures Cube(x) <= Cube(y)
  {
    SquareMonotone(x, y);
    assert x * x * x <= x * x * y by {
      assert (x * x) * (y - x) >= 0.0;
    }
    assert x * x * y <= y * y * y by {
      assert (y * y - x * x) * y >= 0.0;
    }
  }

  /** The curve stays within [0, 1] on [0, 1]: below one half in the first half, at least one half after. */
  lemma EaseInUnit(p: real)
    requires 0.0 <= p <= 1.0
    ensures 0.0 <= Ease(p) <= 1.0
    ensures p < 0.5 <==> Ease(p) < 0.5
  {
    if p < 0.5 {
      assert p * p <= 0.5 * p by {
        assert p * (0.5 - p) >= 0.0;
      }
    } else {
      CubeMonotone(0.0, -2.0 * p + 2.0);
      CubeMonotone(-2.0 * p + 2.0, 1.0);
    }
  }

  /** The curve never runs backwards on [0, 1]. */
  lemma EaseMonotone(p: real, q: real)
    requires 0.0 <= p <= q <= 1.0
    ensures Ease(p) <= Ease(q)
  {
    EaseInUnit(p);
    EaseInUnit(q);
    if q < 0.5 {
      SquareMonotone(p, q);
    } else if 0.5 <= p {
      CubeMonotone(-2.0 * q + 2.0, -2.0 * p + 2.0);
    }
  }

  lemma ScaleBetween(w: real, t: real)
    requires 0.0 <= w && 0.0 <= t <= 1.0
    ensures 0.0 <= w * t <= w
  {
    assert w - w * t == w * (1.0 - t);
  }

  /** For t in [0, 1] the interpolated coordinate lies between the two ends. */
  lemma LerpBetween(a: real, b: real, t: real)
    requires 0.0 <= t <= 1.0
    ensures a <= b ==> a <= Lerp(a, b, t) <= b
    ensures b <= a ==> b <= Lerp(a, b, t) <= a
  {
    var w := b - a;
    var x := w * t;
    assert Lerp(a, b, t) == a + x;
    if a <= b {
      ScaleBetween(w, t);
    } else {
      ScaleBetween(-w, t);
      assert (-w) * t == -x;
    }
  }

  /** Interpolation at 0 is the start and at 1 the end. */
  lemma InterpolateEnds(from: LngLat, to: LngLat)
    ensures Interpolate(from, to, 0.0) == from && Interpolate(from, to, 1.0) == to
  {
  }

  /** The first frame of a slide shows its start: a slide never makes a marker jump. */
  lemma FirstFrameAtStart(from: LngLat, to: LngLat, duration: Millis)
    ensures FramePoint(from, to, 0, duration) == from
  {
    EaseFixedPoints();
    InterpolateEnds(from, to);
  }

  /** Once the duration has passed a frame shows exactly the target. */
  lemma FinalFrameAtTarget(from: LngLat, to: LngLat, elapsed: int, duration: Millis)
    requires elapsed >= duration
    ensures FramePoint(from, to, elapsed, duration) == to
  {
    EaseFixedPoints();
    InterpolateEnds(from, to);
  }

  /** No frame overshoots: every frame at a non-negative elapsed time lies in the box spanned by start and target. */
  lemma FrameWithinBox(from: LngLat, to: LngLat, elapsed: int, duration: Millis)
    requires 0 <= elapsed
    ensures var q := FramePoint(from, to, elapsed, duration);
            (from.lng <= to.lng ==> from.lng <= q.lng <= to.lng) &&
            (to.lng <= from.lng ==> to.lng <= q.lng <= from.lng) &&
            (from.lat <= to.lat ==> from.lat <= q.lat <= to.lat) &&
            (to.lat <= from.lat ==> to.lat <= q.lat <= from.lat)
  {
    var t := Ease(Progress(elapsed, duration));
    EaseInUnit(Progress(elapsed, duration));
    LerpBetween(from.lng, to.lng, t);
    LerpBetween(from.lat, to.lat, t);
  }

  /** Later frames are never farther back along the way: the eased progress is monotone in time. */
  lemma FramesAdvance(e1: int, e2: int, duration: Millis)
    requires 0 <= e1 <= e2
    ensures Ease(Progress(e1, duration)) <= Ease(Progress(e2, duration))
  {
    var p1, p2 := Progress(e1, duration), Progress(e2, duration);
    assert e1 as real / duration as real <= e2 as real / duration as real by {
      assert (e2 - e1) as real / duration as real >= 0.0;
    }
    EaseMonotone(p1, p2);
  }
}
