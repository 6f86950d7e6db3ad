/**
 * The settings shared by the configuration file and the command line
 * (src/config/common.rs), updated in place by `overwrite`.
 */
module Common {
  import opened Wrappers
  import opened RustStr
  import Extents
  import Alignments
  import opened Layout

  class CommonConfig {
    var disableDefaultBinds: bool
    var width: Option<Extents.Extent>
    var height: Option<Extents.Extent>
    var alignment: Option<Alignments.Alignment>

    /** `CommonConfig::default`: binds enabled, nothing else set. */
    constructor ()
      ensures !disableDefaultBinds && width.None? && height.None? && alignment.None?
    {
      disableDefaultBinds := false;
      width := None;
      height := None;
      alignment := None;
    }

    constructor Of(disable: bool, w: Option<Extents.Extent>, h: Option<Extents.Extent>, a: Option<Alignments.Alignment>)
      ensures disableDefaultBinds == disable && width == w && height == h && alignment == a
    {
      disableDefaultBinds := disable;
      width := w;
      height := h;
      alignment := a;
    }

    /** `clone`. */
    constructor Clone(other: CommonConfig)
      ensures disableDefaultBinds == other.disableDefaultBinds && width == other.width
      ensures height == other.height && alignment == other.alignment
    {
      disableDefaultBinds := other.disableDefaultBinds;
      width := other.width;
      height := other.height;
      alignment := other.alignment;
    }

    /**
     * `overwrite`: the flag is always taken from `other`; each optional
     * setting only where `other` has one.
     */
    method Overwrite(other: CommonConfig)
      modifies this
      ensures disableDefaultBinds == old(other.disableDefaultBinds)
      ensures width == Override(old(width), old(other.width))
      ensures height == Override(old(height), old(other.height))
      ensures alignment == Override(old(alignment), old(other.alignment))
    {
      var w, h, a := other.width, other.height, other.alignment;
      disableDefaultBinds := other.disableDefaultBinds;
      if w.Some? { width := w; }
      if h.Some? { height := h; }
      if a.Some? { alignment := a; }
    }

    /** `is_inline`: exactly when a height is set. */
    function IsInline(): (r: bool)
      reads this
      ensures r <==> height.Some?
    {
      height.Some?
    }

    /** `viewport`; an inline viewport always leaves at least one terminal row free. */
    function Viewport(termHeight: U16): (r: Viewport)
      reads this
      requires height.Some? ==> height.value.Cells? && termHeight >= 1
      ensures r.Fullscreen? <==> !IsInline()
      ensures r.Inline? ==> r.height < termHeight && r.height <= height.value.count
    {
      ViewportOf(height, termHeight)
    }

    /** `area`: unchanged without a width; otherwise a row of the area that fits inside its width. */
    function Area(area: Rect): (r: Rect)
      reads this
      requires PlacementInCells(width, alignment)
      ensures width.None? ==> r == area
      ensures width.Some? ==> r.y == area.y && r.height == area.height && r.x + r.width <= area.width
      ensures width.Some? ==> r.width == Min(width.value.count, area.width)
    {
      AreaOf(width, alignment, area)
    }
  }

  /** The source's `overwrite` test: overwriting a default config with a full one gives the full one. */
  method OverwriteExample() returns (c: CommonConfig, b: CommonConfig)
    ensures c.disableDefaultBinds == b.disableDefaultBinds && c.width == b.width
    ensures c.height == b.height && c.alignment == b.alignment
  {
    var a := new CommonConfig();
    b := new CommonConfig.Of(true, Some(Extents.Zero), Some(Extents.Zero), Some(Alignments.Default()));
    c := new CommonConfig.Clone(a);
    c.Overwrite(b);
  }
}
