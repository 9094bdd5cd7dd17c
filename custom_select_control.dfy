/**
 * CustomSelectControl: a styled single-select listbox. The options, the
 * selected `value` and `onChange` are props; the component's own state is
 * whether the menu is open and the highlighted option. `onChange` calls are
 * recorded in the ghost trace `emitted`.
 */
module CustomSelectControl {
  import opened Wrappers
  import opened Listbox

  datatype SelectOption = SelectOption(key: string, name: string)

  /** `onChange({ selectedItem })`; `None` stands for `selectedItem: undefined`. */
  datatype Emission = SelectionChanged(selectedItem: Option<SelectOption>)

  /** `value || options[0]`: the option shown on the button, absent only when there is neither. */
  function SelectedOption(value: Option<SelectOption>, options: seq<SelectOption>): (r: Option<SelectOption>)
    ensures r.None? <==> value.None? && options == []
    ensures value.Some? ==> r == value
    ensures value.None? && options != [] ==> r == Some(options[0])
  {
    if value.Some? then value
    else if options != [] then Some(options[0])
    else None
  }

  /** `options[i]`, which is `undefined` outside the list. */
  function ItemAt(options: seq<SelectOption>, i: int): (r: Option<SelectOption>)
    ensures r.Some? <==> 0 <= i < |options|
    ensures r.Some? ==> r.value in options
  {
    if 0 <= i < |options| then Some(options[i]) else None
  }

  class Select {
    const options: seq<SelectOption>
    const value: Option<SelectOption>
    const hasOnChange: bool

    var isOpen: bool
    var highlightedIndex: int
    /** Every `onChange` call, oldest first. */
    ghost var emitted: seq<Emission>

    ghost predicate Valid()
      reads this
    {
      highlightedIndex >= -1
    }

    constructor (options: seq<SelectOption>, value: Option<SelectOption>, hasOnChange: bool)
      ensures Valid()
      ensures this.options == options && this.value == value && this.hasOnChange == hasOnChange
      ensures !isOpen && highlightedIndex == -1 && emitted == []
    {
      this.options := options;
      this.value := value;
      this.hasOnChange := hasOnChange;
      isOpen := false;
      highlightedIndex := -1;
      emitted := [];
    }

    /** A click on the button flips the menu. */
    method HandleToggle()
      modifies this`isOpen
      ensures isOpen == !old(isOpen)
    {
      isOpen := !isOpen;
    }

    /** `handleSelect`: report the item and close; the highlight is kept. */
    method HandleSelect(item: Option<SelectOption>)
      modifies this`isOpen, this`emitted
      ensures !isOpen
      ensures emitted == old(emitted) + (if hasOnChange then [SelectionChanged(item)] else [])
    {
      if hasOnChange {
        emitted := emitted + [SelectionChanged(item)];
      }
      isOpen := false;
    }

    method HandleKeyDown(key: Key)
      requires Valid()
      modifies this`isOpen, this`highlightedIndex, this`emitted
      ensures Valid()
      // While closed, Enter and Space only open the menu; every other key does nothing.
      ensures !old(isOpen) && (key == Enter || key == Space) ==>
        isOpen && highlightedIndex == old(highlightedIndex) && emitted == old(emitted)
      ensures !old(isOpen) && !(key == Enter || key == Space) ==> unchanged(this)
      ensures old(isOpen) && key == ArrowDown ==>
        highlightedIndex == MoveDown(old(highlightedIndex), |options|) && isOpen && emitted == old(emitted)
      ensures old(isOpen) && key == ArrowUp ==>
        highlightedIndex == MoveUp(old(highlightedIndex)) && isOpen && emitted == old(emitted)
      // Enter and Space select `options[highlightedIndex]` exactly when the index is not negative.
      ensures old(isOpen) && (key == Enter || key == Space) && old(highlightedIndex) >= 0 ==>
        !isOpen && highlightedIndex == old(highlightedIndex)
        && emitted == old(emitted) + (if hasOnChange then [SelectionChanged(ItemAt(options, old(highlightedIndex)))] else [])
      ensures old(isOpen) && (key == Enter || key == Space) && old(highlightedIndex) < 0 ==> unchanged(this)
      // Escape closes without touching the highlight.
      ensures old(isOpen) && key == Escape ==>
        !isOpen && highlightedIndex == old(highlightedIndex) && emitted == old(emitted)
      ensures old(isOpen) && key in {Comma, Backspace, Other} ==> unchanged(this)
    {
      if !isOpen {
        if key == Enter || key == Space {
          isOpen := true;
        }
        return;
      }
      match key {
        case ArrowDown =>
          highlightedIndex := MoveDown(highlightedIndex, |options|);
        case ArrowUp =>
          highlightedIndex := MoveUp(highlightedIndex);
        case Enter =>
          if highlightedIndex >= 0 {
            HandleSelect(ItemAt(options, highlightedIndex));
          }
        case Space =>
          if highlightedIndex >= 0 {
            HandleSelect(ItemAt(options, highlightedIndex));
          }
        case Escape =>
          isOpen := false;
        case _ =>
      }
    }

    /** Hovering the option at index `i` highlights it. */
    method HandleHover(i: nat)
      modifies this`highlightedIndex
      ensures Valid()
      ensures highlightedIndex == i
    {
      highlightedIndex := i;
    }

    /** A mousedown outside closes the menu; the listener exists only while it is open. */
    method HandleOutsideMouseDown()
      modifies this`isOpen
      ensures !isOpen
      ensures old(isOpen) || unchanged(this)
    {
      if isOpen {
        isOpen := false;
      }
    }
  }

  /**
   * On an empty option list, opening the menu, pressing ArrowUp and then Enter
   * reports `selectedItem: undefined`: ArrowUp lifts the index from -1 to 0,
   * and the Enter guard only checks that the index is not negative.
   */
  method EmptyListSelection() returns (select: Select)
    ensures select.options == [] && select.highlightedIndex == 0 && !select.isOpen
    ensures select.emitted == [SelectionChanged(None)]
  {
    select := new Select([], None, true);
    select.HandleKeyDown(Enter);
    assert select.isOpen;
    select.HandleKeyDown(ArrowUp);
    assert select.highlightedIndex == 0;
    select.HandleKeyDown(Enter);
  }
}
