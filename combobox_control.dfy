/**
 * ComboboxControl: a searchable single-value select. The selected `value`
 * and the (parent-filtered) `options` are props; the component's own state is
 * whether the list is open, the input text and the highlighted option. Calls
 * of `onChange` and `onFilterValueChange` are recorded in the ghost trace
 * `emitted`, in the order they happen.
 */
module ComboboxControl {
  import opened Wrappers
  import opened Listbox

  /** An option: its value and its `label` (`label` is a Dafny keyword, hence `caption`). */
  datatype ComboOption = ComboOption(value: string, caption: string)

  /** One callback call: `onChange(v)` (`None` for `null`) or `onFilterValueChange(text)`. */
  datatype Emission = Changed(selected: Option<string>) | FilterChanged(text: string)

  /** `hasValue`: the value is neither null, undefined nor the empty string. The clear button is shown exactly then. */
  predicate HasValue(value: Option<string>): (r: bool)
    ensures r ==> value.Some?
    ensures value == Some("") ==> !r
  {
    value.Some? && value.value != ""
  }

  /** `options.find((o) => o.value === v)`, as the index of the first option whose value is `v`. */
  function FindOption(options: seq<ComboOption>, v: string): (r: Option<nat>)
    ensures r.Some? ==> r.value < |options| && options[r.value].value == v
    ensures r.Some? ==> forall k :: 0 <= k < r.value ==> options[k].value != v
    ensures r.None? ==> forall k :: 0 <= k < |options| ==> options[k].value != v
  {
    if options == [] then None
    else if options[0].value == v then Some(0)
    else match FindOption(options[1..], v)
      case Some(k) => Some(k + 1)
      case None => None
  }

  /** The text the input shows for the current value when the list is closed. */
  function DisplayLabel(value: Option<string>, options: seq<ComboOption>): string {
    if HasValue(value) then
      match FindOption(options, value.value)
      case Some(k) => options[k].caption
      case None => ""
    else ""
  }

  /** The label shown is that of the first option carrying the value; it is empty when there is no value or no option carries it. */
  lemma DisplayLabelSpec(value: Option<string>, options: seq<ComboOption>)
    ensures !HasValue(value) ==> DisplayLabel(value, options) == ""
    ensures HasValue(value) && (forall k :: 0 <= k < |options| ==> options[k].value != value.value)
      ==> DisplayLabel(value, options) == ""
    ensures forall k :: (0 <= k < |options| && HasValue(value) && options[k].value == value.value
                          && (forall j :: 0 <= j < k ==> options[j].value != value.value))
                         ==> DisplayLabel(value, options) == options[k].caption
  {
    if HasValue(value) {
      var r := FindOption(options, value.value);
      forall k | 0 <= k < |options| && options[k].value == value.value
        && (forall j :: 0 <= j < k ==> options[j].value != value.value)
        ensures DisplayLabel(value, options) == options[k].caption
      {
        assert r.Some?;
      }
    }
  }

  class Combobox {
    const value: Option<string>
    const options: seq<ComboOption>
    const hasOnChange: bool
    const hasOnFilterValueChange: bool

    var isOpen: bool
    var inputValue: string
    var activeIndex: int
    /** Every callback call, oldest first. */
    ghost var emitted: seq<Emission>

    ghost predicate Valid()
      reads this
    {
      activeIndex >= -1
    }

    constructor (value: Option<string>, options: seq<ComboOption>, hasOnChange: bool, hasOnFilterValueChange: bool)
      ensures Valid()
      ensures this.value == value && this.options == options
      ensures this.hasOnChange == hasOnChange && this.hasOnFilterValueChange == hasOnFilterValueChange
      ensures !isOpen && inputValue == "" && activeIndex == -1 && emitted == []
    {
      this.value := value;
      this.options := options;
      this.hasOnChange := hasOnChange;
      this.hasOnFilterValueChange := hasOnFilterValueChange;
      isOpen := false;
      inputValue := "";
      activeIndex := -1;
      emitted := [];
    }

    /** What selecting `option` reports: `onChange(option.value)`, then `onFilterValueChange('')`. */
    function SelectEmissions(option: ComboOption): seq<Emission> {
      (if hasOnChange then [Changed(Some(option.value))] else [])
      + (if hasOnFilterValueChange then [FilterChanged("")] else [])
    }

    /** The render effect: while closed, the input shows the label of the current value. */
    method SyncLabel()
      modifies this`inputValue
      ensures inputValue == if isOpen then old(inputValue) else DisplayLabel(value, options)
    {
      if !isOpen {
        inputValue := DisplayLabel(value, options);
      }
    }

    /** `closeAndRestore`: close, clear the highlight and show the label of the current value; nothing is emitted. */
    method CloseAndRestore()
      modifies this`isOpen, this`activeIndex, this`inputValue
      ensures Valid()
      ensures !isOpen && activeIndex == -1 && inputValue == DisplayLabel(value, options)
    {
      isOpen := false;
      activeIndex := -1;
      if HasValue(value) {
        var found := FindOption(options, value.value);
        inputValue := if found.Some? then options[found.value].caption else "";
      } else {
        inputValue := "";
      }
    }

    /** Typing shows the text, opens the list, clears the highlight and reports the text as the filter. */
    method HandleInputChange(text: string)
      modifies this`isOpen, this`activeIndex, this`inputValue, this`emitted
      ensures Valid()
      ensures inputValue == text && isOpen && activeIndex == -1
      ensures emitted == old(emitted) + (if hasOnFilterValueChange then [FilterChanged(text)] else [])
    {
      inputValue := text;
      isOpen := true;
      activeIndex := -1;
      if hasOnFilterValueChange {
        emitted := emitted + [FilterChanged(text)];
      }
    }

    /** Focus opens the list and resets the filter to the empty string. */
    method HandleFocus()
      modifies this`isOpen, this`emitted
      ensures isOpen
      ensures emitted == old(emitted) + (if hasOnFilterValueChange then [FilterChanged("")] else [])
    {
      isOpen := true;
      if hasOnFilterValueChange {
        emitted := emitted + [FilterChanged("")];
      }
    }

    /** `handleSelect`: show the option's label, close, clear the highlight, then report the value and reset the filter. */
    method HandleSelect(option: ComboOption)
      modifies this`isOpen, this`activeIndex, this`inputValue, this`emitted
      ensures Valid()
      ensures inputValue == option.caption && !isOpen && activeIndex == -1
      ensures emitted == old(emitted) + SelectEmissions(option)
    {
      inputValue := option.caption;
      isOpen := false;
      activeIndex := -1;
      if hasOnChange {
        emitted := emitted + [Changed(Some(option.value))];
      }
      if hasOnFilterValueChange {
        emitted := emitted + [FilterChanged("")];
      }
    }

    /** `handleClear`: empty the input, close, and report `null` and an empty filter. */
    method HandleClear()
      modifies this`isOpen, this`activeIndex, this`inputValue, this`emitted
      ensures Valid()
      ensures inputValue == "" && !isOpen && activeIndex == -1
      ensures emitted == old(emitted) + (if hasOnChange then [Changed(None)] else [])
                        + (if hasOnFilterValueChange then [FilterChanged("")] else [])
    {
      inputValue := "";
      isOpen := false;
      activeIndex := -1;
      if hasOnChange {
        emitted := emitted + [Changed(None)];
      }
      if hasOnFilterValueChange {
        emitted := emitted + [FilterChanged("")];
      }
    }

    method HandleKeyDown(key: Key)
      requires Valid()
      modifies this`isOpen, this`activeIndex, this`inputValue, this`emitted
      ensures Valid()
      // While closed, ArrowDown only opens the list; every other key does nothing.
      ensures !old(isOpen) && key == ArrowDown ==>
        isOpen && activeIndex == old(activeIndex) && inputValue == old(inputValue) && emitted == old(emitted)
      ensures !old(isOpen) && key != ArrowDown ==> unchanged(this)
      ensures old(isOpen) && key == ArrowDown ==>
        activeIndex == MoveDown(old(activeIndex), |options|)
        && isOpen && inputValue == old(inputValue) && emitted == old(emitted)
      ensures old(isOpen) && key == ArrowUp ==>
        activeIndex == MoveUp(old(activeIndex))
        && isOpen && inputValue == old(inputValue) && emitted == old(emitted)
      // Enter commits the highlighted option only when it exists.
      ensures old(isOpen) && key == Enter && 0 <= old(activeIndex) < |options| ==>
        var option := options[old(activeIndex)];
        inputValue == option.caption && !isOpen && activeIndex == -1
        && emitted == old(emitted) + SelectEmissions(option)
      ensures old(isOpen) && key == Enter && !(0 <= old(activeIndex) < |options|) ==> unchanged(this)
      ensures old(isOpen) && key == Escape ==>
        !isOpen && activeIndex == -1 && inputValue == DisplayLabel(value, options) && emitted == old(emitted)
      ensures old(isOpen) && key in {Space, Comma, Backspace, Other} ==> unchanged(this)
    {
      if !isOpen && key == ArrowDown {
        isOpen := true;
        return;
      }
      if !isOpen {
        return;
      }
      match key {
        case ArrowDown =>
          activeIndex := MoveDown(activeIndex, |options|);
        case ArrowUp =>
          activeIndex := MoveUp(activeIndex);
        case Enter =>
          if activeIndex >= 0 && activeIndex < |options| {
            HandleSelect(options[activeIndex]);
          }
        case Escape =>
          CloseAndRestore();
        case _ =>
      }
    }

    /** A mousedown outside the control always runs `closeAndRestore`, open or not. */
    method HandleOutsideMouseDown()
      modifies this`isOpen, this`activeIndex, this`inputValue
      ensures Valid()
      ensures !isOpen && activeIndex == -1 && inputValue == DisplayLabel(value, options)
    {
      CloseAndRestore();
    }
  }
}
