/**
 * The placement arithmetic that CommonConfig (src/config/common.rs) and
 * PartialConfig (src/config/partial.rs) share, on cell-count extents: the
 * inline viewport height and the horizontal placement of the drawing area.
 */
module Layout {
  import opened Wrappers
  import opened RustStr
  import Extents
  import Alignments

  /** A terminal rectangle; every field is a `u16`. */
  datatype Rect = Rect(x: U16, y: U16, width: U16, height: U16)

  /** The terminal viewport the app asks for. */
  datatype Viewport = Fullscreen | Inline(height: U16)

  function Min(a: nat, b: nat): (r: nat)
    ensures r <= a && r <= b && (r == a || r == b)
  {
    if a <= b then a else b
  }

  /** `u16::saturating_sub`. */
  function SaturatingSub(a: nat, b: nat): (r: nat)
    ensures r <= a
    ensures a >= b ==> r + b == a
    ensures a < b ==> r == 0
  {
    if a >= b then a - b else 0
  }

  /** The value an `other.field.map(|v| self.field = Some(v))` leaves behind. */
  function Override<T>(mine: Option<T>, theirs: Option<T>): (r: Option<T>)
    ensures theirs.Some? ==> r == theirs
    ensures theirs.None? ==> r == mine
  {
    if theirs.Some? then theirs else mine
  }

  /**
   * `viewport`: fullscreen without a height; otherwise inline, at the
   * configured height but strictly below the terminal height. `term_height - 1`
   * underflows for a zero terminal height, so an inline viewport needs one.
   */
  function ViewportOf(height: Option<Extents.Extent>, termHeight: U16): (r: Viewport)
    requires height.Some? ==> height.value.Cells? && termHeight >= 1
    ensures r.Fullscreen? <==> height.None?
    ensures r.Inline? ==> r.height < termHeight && r.height <= height.value.count
    ensures r.Inline? ==> r.height == height.value.count || r.height == termHeight - 1
  {
    match height
    case None => Fullscreen
    case Some(h) => Inline(Min(Extents.CellsOf(h, termHeight), termHeight - 1))
  }

  /** The extents `area` turns into cells: the width and, when a width is set, the alignment's offset. */
  predicate PlacementInCells(width: Option<Extents.Extent>, alignment: Option<Alignments.Alignment>) {
    width.Some? ==> width.value.Cells? && (alignment.Some? ==> Alignments.HasCellOffset(alignment.value))
  }

  /**
   * `area`: without a width the area is returned as it is. Otherwise the
   * width is clipped to the area, the height and `y` are kept, and `x` is
   * placed by the alignment (left by default), relative to the area's own
   * left edge: a left offset is honoured while the row still fits and is
   * clipped so that it ends at the right edge otherwise; a right offset is
   * measured from the right edge and `x` stops at 0; a centred row has
   * margins that differ by at most one cell.
   */
  function AreaOf(width: Option<Extents.Extent>, alignment: Option<Alignments.Alignment>, area: Rect): (r: Rect)
    requires PlacementInCells(width, alignment)
    ensures width.None? ==> r == area
    ensures width.Some? ==> r.y == area.y && r.height == area.height
    ensures width.Some? ==> r.width == Min(width.value.count, area.width) && r.x + r.width <= area.width
    ensures width.Some? ==>
              var a := if alignment.Some? then alignment.value else Alignments.Default();
              && (a.Left? && a.offset.count + r.width <= area.width ==> r.x == a.offset.count)
              && (a.Left? && a.offset.count + r.width > area.width ==> r.x + r.width == area.width)
              && (a.Right? && a.offset.count + r.width <= area.width ==> r.x + r.width + a.offset.count == area.width)
              && (a.Right? && a.offset.count + r.width > area.width ==> r.x == 0)
              && (a.Center? ==> r.x - 1 <= area.width - (r.x + r.width) <= r.x + 1)
  {
    if width.None? then area
    else
      var w := Min(Extents.CellsOf(width.value, area.width), area.width);
      var a := if alignment.Some? then alignment.value else Alignments.Default();
      var x := match a
        case Left(offset) => Min(Extents.CellsOf(offset, area.width), area.width - w)
        case Center => area.width / 2 - w / 2
        case Right(offset) => SaturatingSub(SaturatingSub(area.width, w), Extents.CellsOf(offset, area.width));
      Rect(x, area.y, w, area.height)
  }
}
