/**
 * The keyboard keys the listbox-style controls react to, and the clamped moves
 * of their highlighted index (shared by the token field, the combobox and the
 * custom select). The index is -1 when nothing is highlighted.
 */
module Listbox {

  /** The value of `event.key`; `Other` stands for every key that no control handles. */
  datatype Key = Enter | Space | Comma | Backspace | ArrowDown | ArrowUp | Escape | Other

  /** ArrowDown: `Math.min(i + 1, length - 1)`. */
  function MoveDown(i: int, length: nat): int {
    if i + 1 < length - 1 then i + 1 else length - 1
  }

  /** ArrowUp: `Math.max(i - 1, 0)`. */
  function MoveUp(i: int): int {
    if i - 1 > 0 then i - 1 else 0
  }

  /** ArrowDown from a valid position (or from -1) stays within the list: it is clamped at the last index, never wrapped, and stays -1 on an empty list. */
  lemma MoveDownClamped(i: int, length: nat)
    requires -1 <= i < length || (length == 0 && i == -1)
    ensures -1 <= MoveDown(i, length) < length || (length == 0 && MoveDown(i, length) == -1)
    ensures i == length - 1 ==> MoveDown(i, length) == i
    ensures i < length - 1 ==> MoveDown(i, length) == i + 1
  {
  }

  /** ArrowUp never goes below 0 and stays at 0 on the first index; from -1 it also lands on 0, whether or not the list is empty. */
  lemma MoveUpClamped(i: int)
    requires i >= -1
    ensures MoveUp(i) >= 0
    ensures i <= 1 ==> MoveUp(i) == 0
    ensures i > 0 ==> MoveUp(i) == i - 1
  {
  }

  /** The index after `n` ArrowDown presses starting at `i`. */
  function PressDown(i: int, length: nat, n: nat): int
    decreases n
  {
    if n == 0 then i else PressDown(MoveDown(i, length), length, n - 1)
  }

  /** Holding ArrowDown from "nothing highlighted" walks the list one step at a time and then rests on the last option. */
  lemma {:induction false} PressDownFromNone(length: nat, n: nat)
    ensures PressDown(-1, length, n) == if n - 1 < length - 1 then n - 1 else length - 1
  {
    PressDownFrom(-1, length, n);
  }

  lemma {:induction false} PressDownFrom(i: int, length: nat, n: nat)
    requires -1 <= i && (i < length || i == -1)
    ensures PressDown(i, length, n) == if i + n < length - 1 then i + n else if length == 0 then -1 else length - 1
    decreases n
  {
    if n > 0 {
      PressDownFrom(MoveDown(i, length), length, n - 1);
    }
  }
}
