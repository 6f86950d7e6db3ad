/**
 * The later revision of the shared settings (src/config/partial.rs): a value
 * whose `overwrite` builds a fresh configuration from the other one.
 */
module Partial {
  import opened Wrappers
  import opened RustStr
  import Extents
  import Alignments
  import opened Layout

  datatype PartialConfig = PartialConfig(
    disableDefaultBinds: bool,
    width: Option<Extents.Extent>,
    height: Option<Extents.Extent>,
    alignment: Option<Alignments.Alignment>)

  /** `PartialConfig::default`. */
  function Default(): (r: PartialConfig)
    ensures !r.disableDefaultBinds && r.width.None? && r.height.None? && r.alignment.None?
  {
    PartialConfig(false, None, None, None)
  }

  /**
   * `overwrite`: the result starts from the default, not from `self`, so it
   * is `other` whatever `self` holds.
   */
  function Overwrite(self: PartialConfig, other: PartialConfig): (r: PartialConfig)
    ensures r == other
  {
    var base := Default();
    PartialConfig(
      other.disableDefaultBinds,
      Override(base.width, other.width),
      Override(base.height, other.height),
      Override(base.alignment, other.alignment))
  }

  /** `is_inline`: exactly when a height is set. */
  function IsInline(c: PartialConfig): (r: bool)
    ensures r <==> c.height.Some?
  {
    c.height.Some?
  }

  /** `viewport`; an inline viewport always leaves at least one terminal row free. */
  function Viewport(c: PartialConfig, termHeight: U16): (r: Viewport)
    requires c.height.Some? ==> c.height.value.Cells? && termHeight >= 1
    ensures r.Fullscreen? <==> !IsInline(c)
    ensures r.Inline? ==> r.height < termHeight && r.height <= c.height.value.count
  {
    ViewportOf(c.height, termHeight)
  }

  /** `area`: unchanged without a width; otherwise a row of the area that fits inside its width. */
  function Area(c: PartialConfig, area: Rect): (r: Rect)
    requires PlacementInCells(c.width, c.alignment)
    ensures c.width.None? ==> r == area
    ensures c.width.Some? ==> r.y == area.y && r.height == area.height && r.x + r.width <= area.width
    ensures c.width.Some? ==> r.width == Min(c.width.value.count, area.width)
  {
    AreaOf(c.width, c.alignment, area)
  }

  /** The source's `overwrite` test. */
  lemma OverwriteExample()
    ensures var b := PartialConfig(true, Some(Extents.Zero), Some(Extents.Zero), Some(Alignments.Default()));
            Overwrite(Default(), b) == b
  {
  }
}
