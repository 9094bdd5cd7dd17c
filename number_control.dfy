/**
 * NumberControl: the custom spin buttons. `increment` and `decrement` compute
 * one value from the props and hand it to `onChange` only when it stays
 * within the bound; an overshoot is dropped, not clamped. Values are integers
 * here; only an absent prop is `None`, and a `value` of 0 is `Some(0)`:
 * `(value || 0)` reads it as 0 and the buttons compare it with the bounds.
 */
module NumberControl {
  import opened Wrappers

  /** `(value || 0)`. */
  function Base(value: Option<int>): int {
    value.GetOr(0)
  }

  /** `increment`: the value `onChange` receives, or `None` when it is not called. */
  function Increment(value: Option<int>, step: int, max: Option<int>, disabled: bool, hasOnChange: bool): (r: Option<int>)
    ensures r.Some? <==> !disabled && hasOnChange && (max.None? || Base(value) + step <= max.value)
    ensures r.Some? ==> r.value - step == Base(value)
    ensures r.Some? && max.Some? ==> r.value <= max.value
  {
    if disabled || !hasOnChange then None
    else
      var newValue := Base(value) + step;
      if max.None? || newValue <= max.value then Some(newValue) else None
  }

  /** `decrement`: the value `onChange` receives, or `None` when it is not called. */
  function Decrement(value: Option<int>, step: int, min: Option<int>, disabled: bool, hasOnChange: bool): (r: Option<int>)
    ensures r.Some? <==> !disabled && hasOnChange && (min.None? || Base(value) - step >= min.value)
    ensures r.Some? ==> r.value + step == Base(value)
    ensures r.Some? && min.Some? ==> r.value >= min.value
  {
    if disabled || !hasOnChange then None
    else
      var newValue := Base(value) - step;
      if min.None? || newValue >= min.value then Some(newValue) else None
  }

  /** The up button's `disabled`: `disabled || (max !== undefined && value >= max)`; an undefined `value` compares false. */
  predicate UpDisabled(value: Option<int>, max: Option<int>, disabled: bool): (r: bool)
    ensures disabled ==> r
    ensures value.None? || max.None? ==> (r <==> disabled)
  {
    disabled || (max.Some? && value.Some? && value.value >= max.value)
  }

  /** The down button's `disabled`: `disabled || (min !== undefined && value <= min)`. */
  predicate DownDisabled(value: Option<int>, min: Option<int>, disabled: bool): (r: bool)
    ensures disabled ==> r
    ensures value.None? || min.None? ==> (r <==> disabled)
  {
    disabled || (min.Some? && value.Some? && value.value <= min.value)
  }

  /** A value of 0 is compared with the bounds: at a bound of 0 it disables that button; an absent value does not. */
  lemma ZeroAtBound()
    ensures UpDisabled(Some(0), Some(0), false) && DownDisabled(Some(0), Some(0), false)
    ensures !UpDisabled(None, Some(0), false) && !DownDisabled(None, Some(0), false)
    ensures Base(Some(0)) == Base(None) == 0
  {
  }

  /** With a step of one and a value present, an enabled up button always reports, and a disabled one never does. */
  lemma UnitStepUp(value: Option<int>, max: Option<int>, disabled: bool, hasOnChange: bool)
    requires value.Some? && hasOnChange
    ensures Increment(value, 1, max, disabled, hasOnChange).Some? <==> !UpDisabled(value, max, disabled)
  {
  }

  /** With a step of one and a value present, an enabled down button always reports, and a disabled one never does. */
  lemma UnitStepDown(value: Option<int>, min: Option<int>, disabled: bool, hasOnChange: bool)
    requires value.Some? && hasOnChange
    ensures Decrement(value, 1, min, disabled, hasOnChange).Some? <==> !DownDisabled(value, min, disabled)
  {
  }

  /** A larger step can overshoot: the up button is enabled, yet the click reports nothing. */
  lemma OvershootDropped()
    ensures !UpDisabled(Some(9), Some(10), false)
    ensures Increment(Some(9), 5, Some(10), false, true) == None
    ensures !DownDisabled(Some(1), Some(0), false)
    ensures Decrement(Some(1), 5, Some(0), false, true) == None
  {
  }
}
