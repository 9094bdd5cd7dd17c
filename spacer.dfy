/**
 * Spacer: builds an inline `style` object from margin props given in grid
 * units (one unit is 4px). The axis props are applied first and the
 * side-specific props after them, so a side's own prop wins. A prop that is
 * `undefined` is `None` here.
 */
module Spacer {
  import opened Wrappers
  import opened Text
  import opened JsObject

  /** `${ units * 4 }px`. */
  function Px(units: int): (r: string)
    ensures |r| > 2 && r[|r| - 2..] == "px"
    ensures r[..|r| - 2] == IntToDecimal(units * 4)
  {
    IntToDecimal(units * 4) + "px"
  }

  /** What one side ends up with: its own prop when given, else its axis prop, else no key at all. */
  function SideValue(own: Option<int>, axis: Option<int>): Option<string> {
    if own.Some? then Some(Px(own.value))
    else if axis.Some? then Some(Px(axis.value))
    else None
  }

  const Sides: seq<string> := ["marginTop", "marginBottom", "marginLeft", "marginRight"]

  /** `style` holds only margin keys, each once, and each side holds the value given. */
  predicate Holds(style: Object<string>, top: Option<string>, bottom: Option<string>,
                  left: Option<string>, right: Option<string>) {
    && DistinctKeys(style)
    && (forall k :: k in Keys(style) ==> k in Sides)
    && Get(style, "marginTop") == top && Get(style, "marginBottom") == bottom
    && Get(style, "marginLeft") == left && Get(style, "marginRight") == right
  }

  /** One assignment `style[side] = value` keeps `Holds` with that side's value replaced. */
  method SetSide(style: Object<string>, side: string, value: string,
                 ghost top: Option<string>, ghost bottom: Option<string>,
                 ghost left: Option<string>, ghost right: Option<string>)
    returns (r: Object<string>)
    requires Holds(style, top, bottom, left, right) && side in Sides
    ensures Holds(r,
                  if side == "marginTop" then Some(value) else top,
                  if side == "marginBottom" then Some(value) else bottom,
                  if side == "marginLeft" then Some(value) else left,
                  if side == "marginRight" then Some(value) else right)
  {
    r := Assign(style, side, value);
  }

  /** The style object, built by the same sequence of conditional assignments as the component. */
  method BuildStyle(marginY: Option<int>, marginX: Option<int>,
                    marginTop: Option<int>, marginBottom: Option<int>,
                    marginLeft: Option<int>, marginRight: Option<int>)
    returns (style: Object<string>)
    ensures Holds(style, SideValue(marginTop, marginY), SideValue(marginBottom, marginY),
                  SideValue(marginLeft, marginX), SideValue(marginRight, marginX))
  {
    style := [];
    ghost var top: Option<string> := None;
    ghost var bottom: Option<string> := None;
    ghost var left: Option<string> := None;
    ghost var right: Option<string> := None;
    if marginY.Some? {
      style := SetSide(style, "marginTop", Px(marginY.value), top, bottom, left, right);
      top := Some(Px(marginY.value));
      style := SetSide(style, "marginBottom", Px(marginY.value), top, bottom, left, right);
      bottom := Some(Px(marginY.value));
    }
    if marginX.Some? {
      style := SetSide(style, "marginLeft", Px(marginX.value), top, bottom, left, right);
      left := Some(Px(marginX.value));
      style := SetSide(style, "marginRight", Px(marginX.value), top, bottom, left, right);
      right := Some(Px(marginX.value));
    }
    if marginTop.Some? {
      style := SetSide(style, "marginTop", Px(marginTop.value), top, bottom, left, right);
      top := Some(Px(marginTop.value));
    }
    if marginBottom.Some? {
      style := SetSide(style, "marginBottom", Px(marginBottom.value), top, bottom, left, right);
      bottom := Some(Px(marginBottom.value));
    }
    if marginLeft.Some? {
      style := SetSide(style, "marginLeft", Px(marginLeft.value), top, bottom, left, right);
      left := Some(Px(marginLeft.value));
    }
    if marginRight.Some? {
      style := SetSide(style, "marginRight", Px(marginRight.value), top, bottom, left, right);
      right := Some(Px(marginRight.value));
    }
  }

  /** `marginY={2}` with `marginTop={5}`: the top's own prop wins, the bottom keeps the axis value. */
  method OverrideExample() returns (style: Object<string>)
    ensures Get(style, "marginTop") == Some(Px(5))
    ensures Get(style, "marginBottom") == Some(Px(2))
    ensures Get(style, "marginLeft") == None
  {
    style := BuildStyle(Some(2), None, Some(5), None, None, None);
  }
}
