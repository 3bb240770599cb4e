/**
 * Where `addArrowsToRoute` puts direction arrows along a route shape.
 * The walk keeps a running distance; at each segment it first tests the
 * running distance against the spacing and, if reached, places an arrow at
 * the segment's start and resets the running distance to 0 without adding
 * that segment; otherwise it adds the segment's length. Distance and bearing
 * between two points are supplied as functions.
 */
module RouteArrows {
  import opened Vehicles

  /** Metres between arrows. */
  const ArrowSpacing: real := 1000.0

  /** An arrow marker: where it stands, the bearing it is rotated by, and the route colour. */
  datatype Arrow = Arrow(at: Location, bearing: real, color: string)

  /** The lengths of the segments of a shape, in order. */
  function Segments(shape: seq<Location>, distance: (Location, Location) -> real): (d: seq<real>)
    ensures |shape| < 2 ==> d == []
    ensures |shape| >= 2 ==> |d| == |shape| - 1
    ensures forall i :: 0 <= i < |d| ==> d[i] == distance(shape[i], shape[i + 1])
  {
    if |shape| < 2 then []
    else Segments(shape[..|shape| - 1], distance) + [distance(shape[|shape| - 2], shape[|shape| - 1])]
  }

  /** The running distance (`totalDistance`) when the walk reaches segment `i`. */
  function AccBefore(d: seq<real>, i: nat): real
    requires i <= |d|
  {
    if i == 0 then 0.0
    else
      var acc := AccBefore(d, i - 1);
      if acc >= ArrowSpacing then 0.0 else acc + d[i - 1]
  }

  /** The segments, among the first `n`, at whose start an arrow is placed, in walk order. */
  function ArrowIndices(d: seq<real>, n: nat): (r: seq<nat>)
    requires n <= |d|
    ensures forall k :: 0 <= k < |r| ==> r[k] < n
  {
    if n == 0 then []
    else ArrowIndices(d, n - 1) + (if AccBefore(d, n - 1) >= ArrowSpacing then [n - 1] else [])
  }

  /** The arrows for the given segment indices of a shape. */
  function ArrowsAt(shape: seq<Location>, idx: seq<nat>, color: string,
                    bearing: (Location, Location) -> real): seq<Arrow>
    requires forall k :: 0 <= k < |idx| ==> idx[k] + 1 < |shape|
  {
    seq(|idx|, k requires 0 <= k < |idx| => Arrow(shape[idx[k]], bearing(shape[idx[k]], shape[idx[k] + 1]), color))
  }

  /** One more arrow index adds its arrow at the end. */
  lemma ArrowsAtSnoc(shape: seq<Location>, idx: seq<nat>, i: nat, color: string, bearing: (Location, Location) -> real)
    requires forall k :: 0 <= k < |idx| ==> idx[k] + 1 < |shape|
    requires i + 1 < |shape|
    ensures ArrowsAt(shape, idx + [i], color, bearing)
            == ArrowsAt(shape, idx, color, bearing) + [Arrow(shape[i], bearing(shape[i], shape[i + 1]), color)]
  {
  }

  /** The arrows the walk has placed on the first `n` segments. */
  function ArrowsUpTo(shape: seq<Location>, distance: (Location, Location) -> real, color: string,
                      bearing: (Location, Location) -> real, n: nat): seq<Arrow>
    requires n <= |Segments(shape, distance)|
  {
    ArrowsAt(shape, ArrowIndices(Segments(shape, distance), n), color, bearing)
  }

  /** A step of the walk from a running distance that has reached the spacing adds an arrow at the segment's start. */
  lemma ArrowsUpToPlaced(shape: seq<Location>, distance: (Location, Location) -> real, color: string,
                         bearing: (Location, Location) -> real, i: nat)
    requires i < |Segments(shape, distance)|
    requires AccBefore(Segments(shape, distance), i) >= ArrowSpacing
    ensures i + 1 < |shape|
    ensures ArrowsUpTo(shape, distance, color, bearing, i + 1)
            == ArrowsUpTo(shape, distance, color, bearing, i) + [Arrow(shape[i], bearing(shape[i], shape[i + 1]), color)]
  {
    var d := Segments(shape, distance);
    assert ArrowIndices(d, i + 1) == ArrowIndices(d, i) + [i];
    ArrowsAtSnoc(shape, ArrowIndices(d, i), i, color, bearing);
  }

  /** A step of the walk from a running distance below the spacing adds no arrow. */
  lemma ArrowsUpToSkipped(shape: seq<Location>, distance: (Location, Location) -> real, color: string,
                          bearing: (Location, Location) -> real, i: nat)
    requires i < |Segments(shape, distance)|
    requires AccBefore(Segments(shape, distance), i) < ArrowSpacing
    ensures ArrowsUpTo(shape, distance, color, bearing, i + 1) == ArrowsUpTo(shape, distance, color, bearing, i)
  {
    var d := Segments(shape, distance);
    assert ArrowIndices(d, i + 1) == ArrowIndices(d, i);
  }

  /** The running distance and the arrows placed after the walk has passed `n` segments. */
  datatype Walk = Walk(totalDistance: real, arrows: seq<Arrow>)

  /** The walk of `addArrowsToRoute` over the first `n` segments, segment by segment. */
  function WalkTo(shape: seq<Location>, distance: (Location, Location) -> real, color: string,
                  bearing: (Location, Location) -> real, n: nat): Walk
    requires n == 0 || n < |shape|
  {
    if n == 0 then Walk(0.0, [])
    else
      var w := WalkTo(shape, distance, color, bearing, n - 1);
      if w.totalDistance >= ArrowSpacing
      then Walk(0.0, w.arrows + [Arrow(shape[n - 1], bearing(shape[n - 1], shape[n]), color)])
      else Walk(w.totalDistance + distance(shape[n - 1], shape[n]), w.arrows)
  }

  /** The walk agrees with the running distance and the arrow indices: after `n` segments it holds `AccBefore` and the arrows so far. */
  lemma {:induction false} WalkToAgrees(shape: seq<Location>, distance: (Location, Location) -> real, color: string,
                                        bearing: (Location, Location) -> real, n: nat)
    requires n == 0 || n < |shape|
    ensures n <= |Segments(shape, distance)|
    ensures WalkTo(shape, distance, color, bearing, n)
            == Walk(AccBefore(Segments(shape, distance), n), ArrowsUpTo(shape, distance, color, bearing, n))
  {
    if n > 0 {
      WalkToAgrees(shape, distance, color, bearing, n - 1);
      var d := Segments(shape, distance);
      var w := WalkTo(shape, distance, color, bearing, n - 1);
      if w.totalDistance >= ArrowSpacing {
        ArrowsUpToPlaced(shape, distance, color, bearing, n - 1);
        assert AccBefore(d, n) == 0.0;
      } else {
        ArrowsUpToSkipped(shape, distance, color, bearing, n - 1);
        assert AccBefore(d, n) == w.totalDistance + d[n - 1];
      }
    }
  }

  /** The walk over every segment places exactly the arrows of `ArrowsFor`. */
  lemma WalkPlacesArrowsFor(shape: seq<Location>, distance: (Location, Location) -> real, color: string,
                            bearing: (Location, Location) -> real)
    ensures WalkTo(shape, distance, color, bearing, if |shape| < 2 then 0 else |shape| - 1).arrows
            == ArrowsFor(shape, color, distance, bearing)
  {
    WalkToAgrees(shape, distance, color, bearing, if |shape| < 2 then 0 else |shape| - 1);
  }

  /** All the arrows `addArrowsToRoute` places for a shape. */
  function ArrowsFor(shape: seq<Location>, color: string, distance: (Location, Location) -> real,
                     bearing: (Location, Location) -> real): seq<Arrow>
  {
    var d := Segments(shape, distance);
    ArrowsAt(shape, ArrowIndices(d, |d|), color, bearing)
  }

  /** An arrow stands at segment i exactly when the running distance reaching it is at least the spacing. */
  lemma {:induction false} ArrowIndicesExact(d: seq<real>, n: nat, i: nat)
    requires n <= |d|
    ensures i in ArrowIndices(d, n) <==> i < n && AccBefore(d, i) >= ArrowSpacing
  {
    if n > 0 {
      ArrowIndicesExact(d, n - 1, i);
    }
  }

  /** Arrows are listed in walk order, each segment at most once. */
  lemma {:induction false} ArrowIndicesIncreasing(d: seq<real>, n: nat)
    requires n <= |d|
    ensures forall j, k :: 0 <= j < k < |ArrowIndices(d, n)| ==> ArrowIndices(d, n)[j] < ArrowIndices(d, n)[k]
  {
    if n > 0 {
      ArrowIndicesIncreasing(d, n - 1);
    }
  }

  /** No arrow at the first point, and never at two consecutive points. */
  lemma NoArrowAtStartNorAdjacent(d: seq<real>, n: nat, i: nat)
    requires n <= |d|
    ensures 0 !in ArrowIndices(d, n)
    ensures i in ArrowIndices(d, n) ==> i + 1 !in ArrowIndices(d, n)
  {
    ArrowIndicesExact(d, n, 0);
    ArrowIndicesExact(d, n, i);
    ArrowIndicesExact(d, n, i + 1);
  }

  /** At most one arrow per two segments: 2 * arrows <= segments, one less while the next arrow is due. */
  lemma {:induction false} ArrowCountBound(d: seq<real>, n: nat)
    requires n <= |d|
    ensures 2 * |ArrowIndices(d, n)| + (if AccBefore(d, n) >= ArrowSpacing then 1 else 0) <= n
  {
    if n > 0 {
      ArrowCountBound(d, n - 1);
    }
  }

  /** The length of the first n segments. */
  function Travelled(d: seq<real>, n: nat): real
    requires n <= |d|
  {
    if n == 0 then 0.0 else Travelled(d, n - 1) + d[n - 1]
  }

  /**
   * With non-negative segment lengths, every arrow is paid for by a full
   * spacing of route walked before it, so a route of length L carries at
   * most L / 1000 arrows.
   */
  lemma {:induction false} ArrowsNeedSpacing(d: seq<real>, n: nat)
    requires n <= |d|
    requires forall i :: 0 <= i < |d| ==> 0.0 <= d[i]
    ensures 0.0 <= AccBefore(d, n)
    ensures ArrowSpacing * |ArrowIndices(d, n)| as real + AccBefore(d, n) <= Travelled(d, n)
  {
    if n > 0 {
      ArrowsNeedSpacing(d, n - 1);
    }
  }

  /** The bound is not reached in general: two 1000 m segments carry one arrow, not two. */
  lemma TwoSpacingsOneArrow(d: seq<real>)
    requires d == [1000.0, 1000.0]
    ensures Travelled(d, 2) == 2.0 * ArrowSpacing && ArrowIndices(d, 2) == [1]
  {
    assert Travelled(d, 1) == 1000.0;
    assert AccBefore(d, 1) == 1000.0;
    assert ArrowIndices(d, 1) == [];
  }

  /** Routes of fewer than two points carry no arrows. */
  lemma ShortRouteNoArrows(shape: seq<Location>, color: string, distance: (Location, Location) -> real,
                           bearing: (Location, Location) -> real)
    requires |shape| < 2
    ensures ArrowsFor(shape, color, distance, bearing) == []
  {
  }

  /** Arrow k stands at the start of the k-th arrow segment and points along that segment. */
  lemma ArrowsForSpec(shape: seq<Location>, color: string, distance: (Location, Location) -> real,
                      bearing: (Location, Location) -> real)
    ensures var d := Segments(shape, distance);
            var idx := ArrowIndices(d, |d|);
            var r := ArrowsFor(shape, color, distance, bearing);
            && |r| == |idx|
            && 2 * |r| <= |d|
            && forall k :: 0 <= k < |r| ==>
                 && 0 < idx[k] && idx[k] + 1 < |shape|
                 && AccBefore(d, idx[k]) >= ArrowSpacing
                 && r[k] == Arrow(shape[idx[k]], bearing(shape[idx[k]], shape[idx[k] + 1]), color)
  {
    var d := Segments(shape, distance);
    var idx := ArrowIndices(d, |d|);
    ArrowCountBound(d, |d|);
    forall k | 0 <= k < |idx|
      ensures 0 < idx[k] && AccBefore(d, idx[k]) >= ArrowSpacing
    {
      ArrowIndicesExact(d, |d|, idx[k]);
      NoArrowAtStartNorAdjacent(d, |d|, idx[k]);
    }
  }
}
