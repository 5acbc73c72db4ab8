/** `MapViewModel`: the conversion between tile zoom levels and map scales, the zoom buttons,
    the size of the whole map in pixels, and the bounding box the map is fitted to when it shows
    a measurement's path. The projection `GeoUtil.lonLatToNormalizedWebMercator` computes x from
    the longitude alone and y from the latitude alone; its two halves and `log2` are parameters. */
module MapView {
  import opened Wrappers
  import opened Numerics
  import opened PathBuilder

  /** `MAX_ZOOM_LEVEL`: the deepest tile level; the map has levels 0 to 20. */
  const MAX_ZOOM_LEVEL: Int32 := 20

  /** `MIN_BBOX_SIZE`, in normalized map units. */
  const MIN_BBOX_SIZE: real := 0.00001

  /** The `WindowSizeClass` width breakpoints, in dp. */
  const WIDTH_DP_MEDIUM_LOWER_BOUND: int := 600
  const WIDTH_DP_EXPANDED_LOWER_BOUND: int := 840

  /** `zoomLevelToScale`: each level below the deepest halves the scale. */
  function ZoomLevelToScale(zoomLevel: Int32): (scale: real)
    ensures scale > 0.0
  {
    1.0 / Pow2Real(Wrap32(MAX_ZOOM_LEVEL - zoomLevel))
  }

  /** A `log2` that is exact on powers of two. */
  ghost predicate ExactOnPowersOfTwo(log2: real -> real) {
    forall e: int :: log2(Pow2Real(e)) == e as real
  }

  /** `scaleToZoomLevel`: the logarithm is truncated by `toInt`. */
  function ScaleToZoomLevel(scale: real, log2: real -> real): Int32
    requires scale > 0.0
  {
    Wrap32(MAX_ZOOM_LEVEL - SatInt32(Trunc(log2(1.0 / scale))))
  }

  /** The map's zoom state: its scale, and whether it follows the user's location. */
  datatype MapState = MapState(scale: real, autoRecenterEnabled: bool)

  /** `zoomIn`: one level deeper, and the map stops following the user. */
  function ZoomIn(m: MapState, log2: real -> real): (r: MapState)
    requires m.scale > 0.0
    ensures r.scale > 0.0 && !r.autoRecenterEnabled
  {
    MapState(ZoomLevelToScale(Wrap32(ScaleToZoomLevel(m.scale, log2) + 1)), false)
  }

  /** `zoomOut`: one level shallower, and the map stops following the user. */
  function ZoomOut(m: MapState, log2: real -> real): (r: MapState)
    requires m.scale > 0.0
    ensures r.scale > 0.0 && !r.autoRecenterEnabled
  {
    MapState(ZoomLevelToScale(Wrap32(ScaleToZoomLevel(m.scale, log2) - 1)), false)
  }

  /** `tileSizePx`: chosen by the window's width class. */
  function TileSizePx(minWidthDp: int): (r: Int32)
    ensures r == 350 || r == 400 || r == 600
  {
    if minWidthDp == WIDTH_DP_EXPANDED_LOWER_BOUND then 350
    else if minWidthDp == WIDTH_DP_MEDIUM_LOWER_BOUND then 400
    else 600
  }

  /** `totalMapSizePx`: `Int` arithmetic on the tile size and `2.0.pow(20).toInt()`. */
  function TotalMapSizePx(tileSizePx: Int32): Int32 {
    Wrap32(tileSizePx * SatInt32(Trunc(Pow2Real(MAX_ZOOM_LEVEL))))
  }

  // ---------------------------------------------------------------------------------------
  // Bounding boxes
  // ---------------------------------------------------------------------------------------

  datatype BoundingBox = BoundingBox(xLeft: real, xRight: real, yTop: real, yBottom: real)

  /** The normalized Web Mercator halves: x grows with the longitude and y, measured from the
      north edge, shrinks as the latitude grows. */
  ghost predicate WebMercator(projectX: real -> real, projectY: real -> real) {
    && (forall a, b :: a < b ==> projectX(a) < projectX(b))
    && (forall a, b :: a < b ==> projectY(a) > projectY(b))
  }

  /** The box holds the point, with y growing downwards. */
  predicate Contains(box: BoundingBox, x: real, y: real) {
    box.xLeft <= x <= box.xRight && box.yTop <= y <= box.yBottom
  }

  /** `minOf`; an empty list has none. */
  function MinOf(s: seq<real>): (r: real)
    requires s != []
    ensures r in s && forall i :: 0 <= i < |s| ==> r <= s[i]
  {
    if |s| == 1 then s[0] else MinReal(s[0], MinOf(s[1..]))
  }

  /** `maxOf`. */
  function MaxOf(s: seq<real>): (r: real)
    requires s != []
    ensures r in s && forall i :: 0 <= i < |s| ==> s[i] <= r
  {
    if |s| == 1 then s[0] else MaxReal(s[0], MaxOf(s[1..]))
  }

  function Latitudes(points: seq<PathPoint>): (r: seq<real>)
    ensures |r| == |points| && forall i :: 0 <= i < |points| ==> r[i] == points[i].latitude
  {
    seq(|points|, i requires 0 <= i < |points| => points[i].latitude)
  }

  function Longitudes(points: seq<PathPoint>): (r: seq<real>)
    ensures |r| == |points| && forall i :: 0 <= i < |points| ==> r[i] == points[i].longitude
  {
    seq(|points|, i requires 0 <= i < |points| => points[i].longitude)
  }

  /** The minimum size step: a side shorter than `MIN_BBOX_SIZE` is widened by the same amount on
      both ends. */
  function EnsureMinimumSize(box: BoundingBox): BoundingBox {
    var width := box.xRight - box.xLeft;
    var height := box.yBottom - box.yTop;
    var box1 := if width < MIN_BBOX_SIZE then
      box.(xLeft := box.xLeft - (MIN_BBOX_SIZE - width) / 2.0, xRight := box.xRight + (MIN_BBOX_SIZE - width) / 2.0)
      else box;
    if height < MIN_BBOX_SIZE then
      box1.(yTop := box1.yTop - (MIN_BBOX_SIZE - height) / 2.0, yBottom := box1.yBottom + (MIN_BBOX_SIZE - height) / 2.0)
    else box1
  }

  /** `getPathBoundingBox` as written: the top edge is projected from the smallest latitude and
      the bottom edge from the largest one. An empty path has no minimum. */
  function PathBoundingBoxAsWritten(points: seq<PathPoint>, projectX: real -> real, projectY: real -> real)
    : Result<BoundingBox>
  {
    if points == [] then Failure(NoSuchElement)
    else
      var lats, lons := Latitudes(points), Longitudes(points);
      Success(EnsureMinimumSize(BoundingBox(projectX(MinOf(lons)), projectX(MaxOf(lons)),
        projectY(MinOf(lats)), projectY(MaxOf(lats)))))
  }

  /** `getPathBoundingBox` with the top edge at the northernmost point, which has the smallest
      y. */
  function PathBoundingBox(points: seq<PathPoint>, projectX: real -> real, projectY: real -> real)
    : Result<BoundingBox>
  {
    if points == [] then Failure(NoSuchElement)
    else
      var lats, lons := Latitudes(points), Longitudes(points);
      Success(EnsureMinimumSize(BoundingBox(projectX(MinOf(lons)), projectX(MaxOf(lons)),
        projectY(MaxOf(lats)), projectY(MinOf(lats)))))
  }

  // ---------------------------------------------------------------------------------------
  // Properties
  // ---------------------------------------------------------------------------------------

  /** The scale of a level of the map is one over a power of two. */
  lemma ScaleOfLevel(z: Int32)
    requires 0 <= z <= MAX_ZOOM_LEVEL
    ensures ZoomLevelToScale(z) == 1.0 / Pow2(MAX_ZOOM_LEVEL - z) as real
  {
    var k := MAX_ZOOM_LEVEL - z;
    assert Wrap32(k) == k;
    assert Pow2Real(k) == Pow2(k) as real;
  }

  lemma InverseOfInverse(p: real)
    requires p > 0.0
    ensures 1.0 / (1.0 / p) == p
  {
  }

  lemma HalfOfInverse(p: real)
    requires p > 0.0
    ensures 1.0 / (2.0 * p) == (1.0 / p) / 2.0
  {
  }

  /** Scale 1 at the deepest level, and each level up halves it. */
  lemma ZoomLevelToScaleSpec(z: Int32)
    requires 0 < z <= MAX_ZOOM_LEVEL
    ensures ZoomLevelToScale(MAX_ZOOM_LEVEL) == 1.0
    ensures ZoomLevelToScale(z - 1) == ZoomLevelToScale(z) / 2.0
  {
    var k := MAX_ZOOM_LEVEL - z;
    ScaleOfLevel(MAX_ZOOM_LEVEL);
    ScaleOfLevel(z);
    ScaleOfLevel(z - 1);
    assert Pow2(k + 1) == 2 * Pow2(k);
    assert Pow2(k + 1) as real == 2.0 * Pow2(k) as real;
    HalfOfInverse(Pow2(k) as real);
  }

  /** Reading the level back from the scale of a level gives that level, on every level of the
      map. */
  lemma ScaleToZoomLevelRoundTrip(z: Int32, log2: real -> real)
    requires ExactOnPowersOfTwo(log2) && 0 <= z <= MAX_ZOOM_LEVEL
    ensures ScaleToZoomLevel(ZoomLevelToScale(z), log2) == z
  {
    var e := MAX_ZOOM_LEVEL - z;
    ScaleOfLevel(z);
    var p := Pow2(e) as real;
    var scale := ZoomLevelToScale(z);
    InverseOfInverse(p);
    assert 1.0 / scale == p;
    assert Pow2Real(e) == p;
    var l := log2(1.0 / scale);
    assert l == e as real by {
      assert log2(Pow2Real(e)) == e as real;
    }
    assert Trunc(l) == e;
    assert ScaleToZoomLevel(scale, log2) == Wrap32(MAX_ZOOM_LEVEL - SatInt32(e));
    assert Wrap32(MAX_ZOOM_LEVEL - e) == z;
  }

  /** On the map's levels, zooming in doubles the scale and zooming out undoes it. */
  lemma ZoomOutUndoesZoomIn(m: MapState, z: Int32, log2: real -> real)
    requires ExactOnPowersOfTwo(log2) && 0 <= z < MAX_ZOOM_LEVEL && m.scale == ZoomLevelToScale(z)
    ensures ZoomIn(m, log2).scale == ZoomLevelToScale(z + 1) == 2.0 * m.scale
    ensures ZoomOut(ZoomIn(m, log2), log2).scale == m.scale
  {
    ScaleToZoomLevelRoundTrip(z, log2);
    ScaleToZoomLevelRoundTrip(z + 1, log2);
    ZoomLevelToScaleSpec(z + 1);
  }

  /** The whole map is 2^20 tiles wide and fits in an `Int` for every tile size. */
  lemma TotalMapSizeSpec(minWidthDp: int)
    ensures TotalMapSizePx(TileSizePx(minWidthDp)) == TileSizePx(minWidthDp) * Pow2(20)
    ensures TotalMapSizePx(TileSizePx(minWidthDp)) == TileSizePx(minWidthDp) * 1_048_576
  {
    assert Pow2(20) == 1_048_576 by {
      assert Pow2(10) == 1024;
      Pow2Add(10, 10);
    }
  }

  lemma {:induction false} Pow2Add(a: nat, b: nat)
    ensures Pow2(a + b) == Pow2(a) * Pow2(b)
    decreases b
  {
    if b > 0 {
      Pow2Add(a, b - 1);
    }
  }

  /** The minimum size step leaves each side at least `MIN_BBOX_SIZE` long, keeps the centre,
      and leaves a long enough side as it was. */
  lemma EnsureMinimumSizeSpec(box: BoundingBox)
    ensures var r := EnsureMinimumSize(box);
      && r.xRight - r.xLeft >= MIN_BBOX_SIZE && r.yBottom - r.yTop >= MIN_BBOX_SIZE
      && r.xLeft + r.xRight == box.xLeft + box.xRight
      && r.yTop + r.yBottom == box.yTop + box.yBottom
      && (box.xRight - box.xLeft >= MIN_BBOX_SIZE ==> r.xLeft == box.xLeft && r.xRight == box.xRight)
      && (box.yBottom - box.yTop >= MIN_BBOX_SIZE ==> r.yTop == box.yTop && r.yBottom == box.yBottom)
      && (box.xRight - box.xLeft < MIN_BBOX_SIZE ==> r.xRight - r.xLeft == MIN_BBOX_SIZE)
      && (box.yBottom - box.yTop < MIN_BBOX_SIZE ==> r.yBottom - r.yTop == MIN_BBOX_SIZE)
  {
  }

  /** The box of a path holds every point of it, is at least `MIN_BBOX_SIZE` on each side, and is
      centred on the path's extremes; an empty path has no box. */
  lemma PathBoundingBoxSpec(points: seq<PathPoint>, projectX: real -> real, projectY: real -> real)
    requires WebMercator(projectX, projectY)
    ensures PathBoundingBox(points, projectX, projectY).Success? <==> points != []
    ensures points != [] ==>
      var box := PathBoundingBox(points, projectX, projectY).value;
      && box.xRight - box.xLeft >= MIN_BBOX_SIZE && box.yBottom - box.yTop >= MIN_BBOX_SIZE
      && forall i :: 0 <= i < |points| ==> Contains(box, projectX(points[i].longitude), projectY(points[i].latitude))
  {
    if points != [] {
      var lats, lons := Latitudes(points), Longitudes(points);
      var raw := BoundingBox(projectX(MinOf(lons)), projectX(MaxOf(lons)), projectY(MaxOf(lats)), projectY(MinOf(lats)));
      EnsureMinimumSizeSpec(raw);
      forall i | 0 <= i < |points|
        ensures Contains(raw, projectX(points[i].longitude), projectY(points[i].latitude))
      {
        Between(projectX, projectY, lons, lats, i);
      }
    }
  }

  /** A point's projection lies between the projections of the extremes. */
  lemma Between(projectX: real -> real, projectY: real -> real, lons: seq<real>, lats: seq<real>, i: nat)
    requires WebMercator(projectX, projectY) && i < |lons| && i < |lats|
    ensures projectX(MinOf(lons)) <= projectX(lons[i]) <= projectX(MaxOf(lons))
    ensures projectY(MaxOf(lats)) <= projectY(lats[i]) <= projectY(MinOf(lats))
  {
    assert MinOf(lons) <= lons[i] <= MaxOf(lons);
    assert MinOf(lats) <= lats[i] <= MaxOf(lats);
  }

  /** As written, the top edge lies below the bottom one, so every path's box is squeezed to
      exactly `MIN_BBOX_SIZE` high; a point more than half that away from the middle latitude is
      left outside. */
  lemma PathBoundingBoxAsWrittenCollapses(points: seq<PathPoint>, projectX: real -> real, projectY: real -> real)
    requires WebMercator(projectX, projectY) && points != []
    ensures var box := PathBoundingBoxAsWritten(points, projectX, projectY).value;
      box.yBottom - box.yTop == MIN_BBOX_SIZE
    ensures var lats := Latitudes(points);
      var box := PathBoundingBoxAsWritten(points, projectX, projectY).value;
      projectY(MinOf(lats)) - projectY(MaxOf(lats)) > MIN_BBOX_SIZE ==>
        exists i :: 0 <= i < |points| && !Contains(box, projectX(points[i].longitude), projectY(points[i].latitude))
  {
    var lats, lons := Latitudes(points), Longitudes(points);
    var raw := BoundingBox(projectX(MinOf(lons)), projectX(MaxOf(lons)), projectY(MinOf(lats)), projectY(MaxOf(lats)));
    assert projectY(MaxOf(lats)) <= projectY(MinOf(lats)) by {
      if MinOf(lats) < MaxOf(lats) {
        assert projectY(MinOf(lats)) > projectY(MaxOf(lats));
      }
    }
    EnsureMinimumSizeSpec(raw);
    if projectY(MinOf(lats)) - projectY(MaxOf(lats)) > MIN_BBOX_SIZE {
      var i :| 0 <= i < |lats| && lats[i] == MaxOf(lats);
      var box := EnsureMinimumSize(raw);
      assert !Contains(box, projectX(points[i].longitude), projectY(points[i].latitude));
    }
  }
}
