/**
 * Placement of the dropdown overlay relative to the measured button frame
 * (`_calcPosition` of components/ModalDropdown.js).
 *
 * Coordinates are integers.  The window size, the default dropdown height
 * (which depends on the platform's hairline width) and the style objects are
 * inputs; nothing is looked up from the platform.
 */
module Placement {
  import opened Wrappers

  /** The button frame in window coordinates, as `measure` reports it. */
  datatype Frame = Frame(x: int, y: int, w: int, h: int)

  /** The window size. */
  datatype Window = Window(width: int, height: int)

  /** The numeric style properties the placement reads; `None` is an undefined property. */
  datatype StyleBox = StyleBox(
    width: Option<int>,
    height: Option<int>,
    borderWidth: Option<int>,
    padding: Option<int>,
    paddingLeft: Option<int>,
    paddingHorizontal: Option<int>,
    paddingBottom: Option<int>,
    paddingVertical: Option<int>)

  /** A style with no properties set (the default `style: {}`). */
  const EmptyStyle := StyleBox(None, None, None, None, None, None, None, None)

  /**
   * The position record the overlay receives: `height` and `top` always,
   * `left` or `right`, and `width` when one is chosen.
   */
  datatype PositionStyle = PositionStyle(
    height: int,
    top: int,
    left: Option<int>,
    right: Option<int>,
    width: Option<int>)

  /** JavaScript `a || b` where `a` is a possibly undefined number: 0 and undefined are falsy. */
  function OrElse(a: Option<int>, b: int): int {
    if a.Some? && a.value != 0 then a.value else b
  }

  function Max(a: int, b: int): int {
    if a >= b then a else b
  }

  /** `(dropdownStyle && dropdownStyle.height) || defaultHeight` */
  function DropdownHeight(dropdownStyle: Option<StyleBox>, defaultHeight: int): int {
    OrElse(if dropdownStyle.Some? then dropdownStyle.value.height else None, defaultHeight)
  }

  /**
   * `(dropdownStyle && dropdownStyle.width) || (style && style.width) || -1`;
   * -1 means "no declared width".
   */
  function DeclaredWidth(dropdownStyle: Option<StyleBox>, style: StyleBox): int {
    OrElse(if dropdownStyle.Some? then dropdownStyle.value.width else None, OrElse(style.width, -1))
  }

  /** Border plus the first truthy of paddingLeft, paddingHorizontal, padding. */
  function LeftOffset(style: StyleBox): int {
    OrElse(style.borderWidth, 0)
      + OrElse(style.paddingLeft, OrElse(style.paddingHorizontal, OrElse(style.padding, 0)))
  }

  /**
   * Border plus the first truthy of paddingBottom, padding.  The source reads
   * the misspelt property `paddingVertica`, which is never set, so
   * `paddingVertical` takes no part.
   */
  function BottomOffset(style: StyleBox): int {
    OrElse(style.borderWidth, 0) + OrElse(style.paddingBottom, OrElse(style.padding, 0))
  }

  /** Whether the overlay opens below the button. */
  predicate OpensBelow(frame: Frame, window: Window, height: int) {
    var bottomSpace := window.height - frame.y - frame.h;
    bottomSpace >= height || bottomSpace >= frame.y
  }

  /** Whether the overlay is anchored by its left edge. */
  predicate AnchorsLeft(frame: Frame, window: Window) {
    window.width - frame.x >= frame.x
  }

  /** The position record before `adjustFrame` is applied. */
  function ComputedPosition(
    frame: Frame, window: Window, defaultHeight: int,
    dropdownStyle: Option<StyleBox>, style: StyleBox, autoWidth: bool): (r: PositionStyle)
    // the height is the declared (or default) height
    ensures r.height == DropdownHeight(dropdownStyle, defaultHeight)
    // below: the overlay's top edge sits under the button's bottom edge, past its border and padding
    ensures OpensBelow(frame, window, r.height) ==> r.top == frame.y + frame.h + BottomOffset(style)
    // above: the overlay never leaves the window's top, and its bottom edge meets the
    // button's top edge unless it had to be clamped
    ensures !OpensBelow(frame, window, r.height) ==>
      r.top >= 0 && (r.top == 0 || r.top + r.height == frame.y)
    ensures !OpensBelow(frame, window, r.height) && frame.y >= r.height ==> r.top + r.height == frame.y
    // exactly one horizontal anchor; left when the button starts in the window's left half
    ensures r.left.Some? != r.right.Some?
    ensures r.left.Some? <==> 2 * frame.x <= window.width
    ensures r.left.Some? ==> r.left.value == frame.x - LeftOffset(style)
    // right-anchored: the overlay's right edge lines up with the button's right edge
    ensures r.right.Some? ==> window.width - r.right.value == frame.x + frame.w
    // width: the button's under auto width, otherwise only a declared one when right-anchored
    ensures autoWidth ==> r.width == Some(frame.w)
    ensures !autoWidth && r.left.Some? ==> r.width.None?
    ensures !autoWidth && r.right.Some? ==>
      r.width == (var w := DeclaredWidth(dropdownStyle, style); if w != -1 then Some(w) else None)
  {
    var height := DropdownHeight(dropdownStyle, defaultHeight);
    var rightSpace := window.width - frame.x;
    var top :=
      if OpensBelow(frame, window, height) then frame.y + frame.h + BottomOffset(style)
      else Max(0, frame.y - height);
    var placed :=
      if AnchorsLeft(frame, window) then
        PositionStyle(height, top, Some(frame.x - LeftOffset(style)), None, None)
      else
        var w := DeclaredWidth(dropdownStyle, style);
        PositionStyle(height, top, None, Some(rightSpace - frame.w), if w != -1 then Some(w) else None);
    if autoWidth then placed.(width := Some(frame.w)) else placed
  }

  /** `_calcPosition`: the computed record, or whatever `adjustFrame` makes of it. */
  function CalcPosition(
    frame: Frame, window: Window, defaultHeight: int,
    dropdownStyle: Option<StyleBox>, style: StyleBox, autoWidth: bool,
    adjustFrame: Option<PositionStyle -> PositionStyle>): (r: PositionStyle)
    ensures adjustFrame.None? ==> r == ComputedPosition(frame, window, defaultHeight, dropdownStyle, style, autoWidth)
    ensures adjustFrame.Some? ==>
      r == adjustFrame.value(ComputedPosition(frame, window, defaultHeight, dropdownStyle, style, autoWidth))
  {
    var computed := ComputedPosition(frame, window, defaultHeight, dropdownStyle, style, autoWidth);
    if adjustFrame.Some? then adjustFrame.value(computed) else computed
  }

  /** If the overlay fits below the button, it opens below, wherever the button is. */
  lemma FitsBelowOpensBelow(frame: Frame, window: Window, defaultHeight: int,
                            dropdownStyle: Option<StyleBox>, style: StyleBox, autoWidth: bool)
    requires window.height - frame.y - frame.h >= DropdownHeight(dropdownStyle, defaultHeight)
    ensures ComputedPosition(frame, window, defaultHeight, dropdownStyle, style, autoWidth).top
      == frame.y + frame.h + BottomOffset(style)
  {
  }

  /** The overlay opens above only when it neither fits below nor has at least as much room below as above. */
  lemma OpensAboveOnlyWhenCramped(frame: Frame, window: Window, defaultHeight: int,
                                  dropdownStyle: Option<StyleBox>, style: StyleBox, autoWidth: bool)
    requires var r := ComputedPosition(frame, window, defaultHeight, dropdownStyle, style, autoWidth);
      r.top != frame.y + frame.h + BottomOffset(style)
    ensures var bottomSpace := window.height - frame.y - frame.h;
      bottomSpace < DropdownHeight(dropdownStyle, defaultHeight) && bottomSpace < frame.y
  {
  }

  /** `paddingVertical` never moves the overlay, because of the misspelt property name. */
  lemma BottomOffsetIgnoresPaddingVertical(style: StyleBox, v: Option<int>)
    ensures BottomOffset(style.(paddingVertical := v)) == BottomOffset(style)
  {
  }

  /** A window of 400 x 800 and a button low on the screen: the 165-high overlay opens above at 535. */
  lemma ScenarioOpensAbove()
    ensures var r := ComputedPosition(Frame(20, 700, 100, 40), Window(400, 800), 0,
                                      Some(EmptyStyle.(height := Some(165))), EmptyStyle, false);
      r.top == 535 && r.height == 165 && r.left == Some(20) && r.right.None? && r.width.None?
  {
  }

  /** A button near the right edge: the overlay is right-anchored at 10 with its declared width 200. */
  lemma ScenarioRightAnchored()
    ensures var r := ComputedPosition(Frame(350, 100, 40, 40), Window(400, 800), 165,
                                      Some(EmptyStyle.(width := Some(200))), EmptyStyle, false);
      r.right == Some(10) && r.width == Some(200) && r.left.None? && r.top == 140
  {
  }
}
