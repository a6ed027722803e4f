/** The extent watch installed by `MapViewer.bindVerticalMovement`
    (src/maps/map.js.ts:68-82): the projected target point that is handed to
    `xyToLngLat` and `goTo`, and the extent the view is taken to land on,
    namely that of the same height centred exactly on the target. Doubles are
    idealised as reals. */
module MapViewer {
  import opened Wrappers

  /** The vertical bounds, in Web Mercator metres. */
  const YMax: real := 20000000.0
  const YMin: real := -20000000.0

  /** What the callback reads of the view's extent. */
  datatype Extent = Extent(ymin: real, ymax: real, centerX: real)

  /** A point in the view's projected coordinates. */
  datatype ProjectedPoint = ProjectedPoint(x: real, y: real)

  function Height(extent: Extent): real {
    extent.ymax - extent.ymin
  }

  /** The extent of the same height centred on `target`: where the view is
      taken to end up once `goTo` has moved it there, assuming the projection
      to longitude and latitude and back is exact. */
  function CenteredOn(extent: Extent, target: ProjectedPoint): (moved: Extent)
    ensures Height(moved) == Height(extent)
    ensures (moved.ymin + moved.ymax) / 2.0 == target.y && moved.centerX == target.x
  {
    Extent(target.y - Height(extent) / 2.0, target.y + Height(extent) / 2.0, target.x)
  }

  /** One extent-change notification: the point to recenter on, or None when
      no move is requested. The top bound is checked first and wins; both
      comparisons include the bound; the horizontal centre is kept. A moved
      top edge lands on `YMax`, a moved bottom edge on `YMin`. */
  function RecenterTarget(extent: Extent): (target: Option<ProjectedPoint>)
    ensures target.Some? <==> extent.ymax >= YMax || extent.ymin <= YMin
    ensures target.Some? ==> target.value.x == extent.centerX
    ensures extent.ymax >= YMax ==> CenteredOn(extent, target.value).ymax == YMax
    ensures extent.ymax < YMax && extent.ymin <= YMin ==> CenteredOn(extent, target.value).ymin == YMin
  {
    if extent.ymax >= YMax then
      Some(ProjectedPoint(extent.centerX, YMax - (extent.ymax - extent.ymin) / 2.0))
    else if extent.ymin <= YMin then
      Some(ProjectedPoint(extent.centerX, YMin + (extent.ymax - extent.ymin) / 2.0))
    else None
  }

  /** The bounds are fixed and symmetric about the equator. */
  lemma BoundsSymmetric()
    ensures YMin == -YMax && YMax == 20000000.0
  {
  }

  /** An extent no taller than the band between the bounds is moved to one
      that lies inside the band. */
  lemma MovedExtentFits(extent: Extent)
    requires 0.0 <= Height(extent) <= YMax - YMin
    requires RecenterTarget(extent).Some?
    ensures var moved := CenteredOn(extent, RecenterTarget(extent).value);
      YMin <= moved.ymin && moved.ymax <= YMax
  {
  }

  /** Because both comparisons include the bound, the moved extent triggers
      the watch once more; for an extent lower than the band it asks for the
      very point it is already centred on, so the clamp settles. */
  lemma RecenterSettles(extent: Extent)
    requires 0.0 <= Height(extent) < YMax - YMin
    requires RecenterTarget(extent).Some?
    ensures var target := RecenterTarget(extent).value;
      RecenterTarget(CenteredOn(extent, target)) == Some(target)
  {
  }

  /** An extent taller than the band, moved by the bottom rule, reaches the
      top bound and is moved again to another point on the next notification;
      it ends with its top on `YMax` and its bottom below `YMin`. */
  lemma TallExtentMovesTwice(extent: Extent)
    requires Height(extent) > YMax - YMin
    requires extent.ymax < YMax
    ensures var first := RecenterTarget(extent).value;
      var moved := CenteredOn(extent, first);
      var second := RecenterTarget(moved).value;
      second != first
      && CenteredOn(moved, second).ymax == YMax && CenteredOn(moved, second).ymin < YMin
  {
  }

  /** An extent whose top crosses by half a million metres from just under
      the bound is moved down by half its height. */
  lemma TopExample()
    ensures RecenterTarget(Extent(19999999.0, 20500000.0, 100.0))
      == Some(ProjectedPoint(100.0, 19749999.5))
  {
  }
}
