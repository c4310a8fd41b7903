/**
 * Visibility and size of the two side panels: the row-number panel
 * (`NumberPanel`, with the corner label above it) and the header strip
 * (`ScrollViewLabel`, holding the `LabelPanel`). Hiding a panel collapses
 * its width or height to 0 and keeps the size it had, so that showing it
 * again restores that size; a size set while hidden is ignored.
 */
module Panels {
  import opened Wrappers

  /** `NumberPanel`: `visible`, `width_widget` and the corner (null) label
      whose width follows the panel's. */
  class NumberPanel {
    var visible: bool
    /** `_width`: the width to show. */
    var storedWidth: int
    /** The laid-out `width`. */
    var width: int
    /** Width of the null label at the left of the header strip. */
    var nullLabelWidth: int
    var autoWidth: bool

    /** Shown with its stored width, or hidden at width 0. */
    ghost predicate Synced()
      reads this
    {
      if visible then width == storedWidth && nullLabelWidth == storedWidth
      else width == 0 && nullLabelWidth == 0
    }

    /** A panel as `__init__` leaves it; the laid-out widths come from the
        layout file and are parameters here. */
    constructor (width0: int, nullWidth0: int)
      ensures visible && storedWidth == 30 && autoWidth
      ensures width == width0 && nullLabelWidth == nullWidth0
    {
      visible := true;
      storedWidth := 30;
      width := width0;
      nullLabelWidth := nullWidth0;
      autoWidth := true;
    }

    /** `width_widget` getter: the stored width, also while hidden. */
    function WidthWidget(): (w: int)
      reads this
      ensures Synced() && visible ==> w == width
    {
      storedWidth
    }

    /** `visible` setter. */
    method SetVisible(v: bool)
      modifies this
      ensures visible == v && storedWidth == old(storedWidth) && autoWidth == old(autoWidth)
      ensures Synced()
      ensures v ==> width == old(storedWidth)
      ensures !v ==> width == 0
    {
      visible := v;
      if v {
        width := storedWidth;
        nullLabelWidth := storedWidth;
      } else {
        width := 0;
        nullLabelWidth := 0;
      }
    }

    /** `width_widget` setter: takes effect only while shown. */
    method SetWidthWidget(w: int)
      modifies this
      ensures visible == old(visible) && autoWidth == old(autoWidth)
      ensures old(visible) ==> storedWidth == w && width == w && nullLabelWidth == w && Synced()
      ensures !old(visible) ==> storedWidth == old(storedWidth) && width == old(width) && nullLabelWidth == old(nullLabelWidth)
      ensures old(Synced()) ==> Synced()
    {
      if visible {
        storedWidth := w;
        width := w;
        nullLabelWidth := w;
      }
    }

    /** `auto_width` setter. */
    method SetAutoWidth(value: bool)
      modifies this`autoWidth
      ensures autoWidth == value
    {
      autoWidth := value;
    }
  }

  /** `ScrollViewLabel`: the header strip. `_height` exists only once the
      label panel's `height_widget` has been set. */
  class ScrollViewLabel {
    var visible: bool
    var storedHeight: Option<int>
    var height: int

    /** Shown with its stored height (when it has one), or hidden at height 0. */
    ghost predicate Synced()
      reads this
    {
      (visible && storedHeight.Some? ==> height == storedHeight.value)
      && (!visible ==> height == 0)
    }

    constructor (height0: int)
      ensures visible && storedHeight == None && height == height0
      ensures Synced()
    {
      visible := true;
      storedHeight := None;
      height := height0;
    }

    /** `visible` setter: `ok` is false when showing fails because no
        height was ever stored (Python raises AttributeError after setting
        `_visible`). */
    method SetVisible(v: bool) returns (ok: bool)
      modifies this
      ensures visible == v && storedHeight == old(storedHeight)
      ensures ok <==> !v || storedHeight.Some?
      ensures v && ok ==> height == storedHeight.value
      ensures v && !ok ==> height == old(height)
      ensures !v ==> height == 0
      ensures Synced()
    {
      visible := v;
      if v {
        if storedHeight.Some? {
          height := storedHeight.value;
          ok := true;
        } else {
          ok := false;
        }
      } else {
        height := 0;
        ok := true;
      }
    }
  }

  /** `LabelPanel`: the row of header labels inside the header strip. */
  class LabelPanel {
    const parent: ScrollViewLabel
    /** `_height` of the panel itself. */
    var storedHeight: int
    var height: int

    constructor (parent: ScrollViewLabel, height0: int)
      ensures this.parent == parent && storedHeight == 30 && height == height0
    {
      this.parent := parent;
      storedHeight := 30;
      height := height0;
    }

    /** `visible` getter: the strip's flag. */
    function Visible(): (v: bool)
      reads this, parent
      ensures parent.Synced() && !v ==> parent.height == 0
      ensures parent.Synced() && v && parent.storedHeight.Some? ==> parent.height == parent.storedHeight.value
    {
      parent.visible
    }

    /** `visible` setter: shows or hides the strip. */
    method SetVisible(v: bool) returns (ok: bool)
      modifies parent
      ensures parent.visible == v && parent.storedHeight == old(parent.storedHeight)
      ensures ok <==> !v || parent.storedHeight.Some?
      ensures v && ok ==> parent.height == parent.storedHeight.value
      ensures v && !ok ==> parent.height == old(parent.height)
      ensures !v ==> parent.height == 0
      ensures parent.Synced()
    {
      ok := parent.SetVisible(v);
    }

    /** `height_widget` getter: the strip's height. */
    function HeightWidget(): (h: int)
      reads this, parent
      ensures !parent.visible && parent.Synced() ==> h == 0
    {
      parent.height
    }

    /** `height_widget` setter: takes effect only while the strip is shown. */
    method SetHeightWidget(h: int)
      modifies this, parent
      ensures parent.visible == old(parent.visible)
      ensures old(parent.visible) ==> parent.storedHeight == Some(h) && parent.height == h
                                       && storedHeight == h && height == h && parent.Synced()
      ensures !old(parent.visible) ==> parent.storedHeight == old(parent.storedHeight)
                                       && parent.height == old(parent.height)
                                       && storedHeight == old(storedHeight) && height == old(height)
      ensures old(parent.Synced()) ==> parent.Synced()
    {
      if parent.visible {
        parent.storedHeight := Some(h);
        parent.height := h;
        storedHeight := h;
        height := h;
      }
    }
  }
}
