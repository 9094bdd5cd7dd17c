# Form controls: a verified model

This project models the behaviour of thirteen React form controls from a component
documentation site. They are the token field, the combobox, the custom select, the
dropdown and the dropdown menu; the tools panel and the tab panel; and the box, unit,
colour, number, font-size and spacer controls. It proves properties of that model in
Dafny.

The model takes the shape of each component:

- **Stateful controls are classes.** Each control whose handlers update `useState`
  variables is a Dafny `class`:
  - `FormTokenField.TokenField`, `ComboboxControl.Combobox`, `CustomSelectControl.Select`
  - `Dropdown.Overlay`, `DropdownMenu.Menu`, `ToolsPanel.Panel`, `TabPanel.Panel`, `BoxControl.Box`

  The state variables are mutable fields and the props are constants. Each event
  handler is a method with a `modifies` frame. Its `ensures` clauses give the complete
  new state.
- **Callbacks go into a ghost trace.** Every call to a callback (`onChange`, `onToggle`,
  `onClose`, `onFilterValueChange`, `onSelect`, `onClick`, `resetAll`, `onDeselect`) is
  appended to a ghost trace such as `emitted`. That makes "fires exactly once, in this
  order" and "fires nothing" statable.
- **Pure code is functions and lemmas.** The unit, colour, number and font-size controls
  are modelled this way, as are the parsing and filtering helpers of the other controls.
- **Source loops become loops.** The box control's `forEach` loops are `while` loops with
  invariants. The spacer builds its style object by successive conditional assignments,
  and the model does the same.

Shared pieces live in their own modules:

- `Wrappers`: `Option`.
- `Text`:
  - JavaScript `trim`, ASCII `toLowerCase` and `includes`;
  - decimal and hexadecimal rendering and parsing;
  - the greedy scan behind the `[\d.]*`, `\d+` and `\s*` parts of the regular expressions.
- `JsObject`: insertion-ordered string-keyed objects, with property read, assignment and
  object spread.
- `Listbox`: the keys and the clamped ArrowDown and ArrowUp moves shared by three controls.

## Behaviour worth knowing

Some of what the code does is easy to misread. The model follows the code:

- **Suggestion filter.** With the suggestions "Apple" and "Banana", the input "an"
  keeps only "Banana", because "apple" does not contain "an"
  (`src/components/FormTokenField.jsx:43-47`, `FormTokenField.FilterExamples`).
- **Highlight index.** The highlighted index is not always -1 or a valid index, and
  closing a list does not always reset it:
  - ArrowUp computes `Math.max(i - 1, 0)`, so on an empty list the index becomes 0.
  - The custom select's Escape and selection close the menu but keep the index.
  - The combobox does not reset the index when the parent replaces `options`.
  - On an empty option list, the custom select's key sequence Enter, ArrowUp, Enter
    reports `{ selectedItem: undefined }`. `CustomSelectControl.EmptyListSelection` walks
    through that sequence.

## Model

| member | source | states |
|---|---|---|
| FormTokenField.AcceptToken | src/components/FormTokenField.jsx:61-65 | a token is accepted exactly when its trim is non-blank, not already a token and the list is below `maxLength`; the accepted list is the old one with the trimmed token appended, and that token is non-empty with no whitespace at either end |
| FormTokenField.AtLimit | src/components/FormTokenField.jsx:40 | `isAtLimit`: never without a maximum; always with a maximum of zero or less; an empty list is at the limit only for such a maximum |
| FormTokenField.AcceptKeepsInvariant | src/components/FormTokenField.jsx:40-65 | an accepted token keeps a duplicate-free list duplicate-free and within `maxLength` |
| FormTokenField.AddAllKeepsInvariant | src/components/FormTokenField.jsx:61-69 | any sequence of adds, each result fed back as the new `value`, never creates a duplicate, never exceeds `maxLength`, keeps the earlier tokens in front and appends only non-blank trimmed tokens |
| FormTokenField.FilteredSuggestions | src/components/FormTokenField.jsx:43-47 | a suggestion is kept exactly when it contains the input ignoring ASCII case and is not already a token; the kept ones are a subsequence of the suggestions, in their order |
| FormTokenField.FilteredCounts | src/components/FormTokenField.jsx:43-47 | the filter keeps every copy of a matching suggestion and no copy of any other, so the kept list is the matching part of the suggestions as a multiset |
| FormTokenField.FilterExamples | src/components/FormTokenField.jsx:43-47 | "an" over Apple and Banana keeps only Banana; "z" keeps nothing |
| FormTokenField.RemoveAll | src/components/FormTokenField.jsx:73 | removal keeps exactly the tokens different from the removed one, in their order, and changes nothing when the token is absent |
| FormTokenField.RemoveAllCounts | src/components/FormTokenField.jsx:73 | removal drops every copy of the token and keeps every copy of any other text |
| FormTokenField.RemoveLastOfDistinct | src/components/FormTokenField.jsx:99-103 | on a duplicate-free list, Backspace's removal of the last token's text drops exactly the last token |
| FormTokenField.RemoveLastOfDuplicated | src/components/FormTokenField.jsx:99-103 | on a list with duplicates, that removal drops every copy, not only the last entry |
| FormTokenField.TokenField.constructor | src/components/FormTokenField.jsx:32-34 | the input starts empty, the list closed and nothing highlighted |
| FormTokenField.TokenField.AddToken | src/components/FormTokenField.jsx:61-69 | an accepted token is emitted once (when `onChange` is given) and resets input, list and highlight; a rejected one changes nothing and emits nothing |
| FormTokenField.TokenField.RemoveToken | src/components/FormTokenField.jsx:71-74 | emits the list without any copy of the token, and nothing when disabled or without `onChange` |
| FormTokenField.TokenField.HandleInputChange | src/components/FormTokenField.jsx:76-80 | typing sets the text, opens the list and clears the highlight |
| FormTokenField.TokenField.HandleInputFocus | src/components/FormTokenField.jsx:82-84 | focus opens the list exactly when there are suggestions, and never closes it |
| FormTokenField.TokenField.HandleKeyDown | src/components/FormTokenField.jsx:86-117 | every key is ignored when disabled; Enter and comma add the highlighted suggestion or else the non-blank input; Backspace on an empty input removes the last token; the arrows move the highlight clamped; Escape closes and clears the highlight |
| FormTokenField.TokenField.EnterKey | src/components/FormTokenField.jsx:90-98 | Enter adds the highlighted suggestion when the index holds a non-empty one, else the input when its trim is non-empty, else does nothing |
| FormTokenField.TokenField.HandleSuggestionMouseDown | src/components/FormTokenField.jsx:119-124 | a suggestion click has the effect of adding that suggestion |
| FormTokenField.TokenField.HandleOutsideMouseDown | src/components/FormTokenField.jsx:51-55 | an outside mousedown closes the list and clears the highlight |
| FormTokenField.TokenField.SetValue | src/components/FormTokenField.jsx:23 | the parent's re-render replaces the `value` prop |
| Listbox.MoveDownClamped | src/components/FormTokenField.jsx:104-107 | ArrowDown stays within the list, stops at the last index instead of wrapping, and stays at -1 on an empty list |
| Listbox.MoveUpClamped | src/components/FormTokenField.jsx:108-111 | ArrowUp never goes below 0, steps back by one above index 1, and lands on 0 from -1 even on an empty list |
| Listbox.PressDownFrom | src/components/FormTokenField.jsx:104-107 | n ArrowDown presses from a valid index move n steps and then rest on the last index |
| Listbox.PressDownFromNone | src/components/FormTokenField.jsx:104-107 | holding ArrowDown from "nothing highlighted" walks the list one step at a time and rests on the last option |
| Text.TrimStart | src/components/FormTokenField.jsx:62 | removes exactly a whitespace-only prefix, leaving no leading whitespace |
| Text.TrimEnd | src/components/FormTokenField.jsx:62 | removes exactly a whitespace-only suffix, leaving no trailing whitespace |
| Text.TrimIsCore | src/components/FormTokenField.jsx:62 | the trim is the slice between two whitespace-only runs and starts and ends with non-whitespace |
| Text.TrimEmptyIff | src/components/FormTokenField.jsx:63 | the trim is empty exactly when the string is all whitespace |
| Text.TrimIsTrimmed | src/components/FormTokenField.jsx:62 | what trim returns has no whitespace at either end |
| Text.TrimIdempotent | src/components/FormTokenField.jsx:62 | trimming twice is trimming once |
| Text.Lower | src/components/FormTokenField.jsx:45 | lower-casing keeps the length |
| Text.LowerSpec | src/components/FormTokenField.jsx:45 | each upper-case ASCII letter becomes its lower-case letter and every other character is kept |
| Text.ContainsIff | src/components/FormTokenField.jsx:45 | `includes` holds exactly when the needle occurs at some index |
| Text.ContainsWitness | src/components/FormTokenField.jsx:45 | a string that `includes` the needle has an index where it occurs |
| Text.OccursContains | src/components/FormTokenField.jsx:45 | an occurrence at any index makes `includes` true |
| Text.MissingFirstChar | src/components/FormTokenField.jsx:45 | a needle whose first character is absent is not included |
| Text.ContainsEmpty | src/components/FormTokenField.jsx:45 | the empty input is included in every suggestion, so it filters nothing out on its own |
| ComboboxControl.FindOption | src/components/ComboboxControl.jsx:70 | `find` returns the first option carrying the value, or none when no option does |
| ComboboxControl.HasValue | src/components/ComboboxControl.jsx:135 | a value counts as present only when it is given and not the empty string |
| ComboboxControl.DisplayLabelSpec | src/components/ComboboxControl.jsx:69-74 | the restored label is that of the first option with the value, and empty when the value is null, undefined or empty or no option matches |
| ComboboxControl.Combobox.constructor | src/components/ComboboxControl.jsx:32-34 | starts closed, with empty input and nothing highlighted |
| ComboboxControl.Combobox.SyncLabel | src/components/ComboboxControl.jsx:43-52 | while closed, the input shows the current value's label; while open it is left alone |
| ComboboxControl.Combobox.CloseAndRestore | src/components/ComboboxControl.jsx:65-75 | closes, clears the highlight and shows the current value's label, emitting nothing |
| ComboboxControl.Combobox.HandleInputChange | src/components/ComboboxControl.jsx:77-83 | typing sets the text, opens, clears the highlight and reports the text as the filter |
| ComboboxControl.Combobox.HandleFocus | src/components/ComboboxControl.jsx:85-88 | focus opens and reports an empty filter |
| ComboboxControl.Combobox.HandleSelect | src/components/ComboboxControl.jsx:90-96 | shows the option's label, closes, clears the highlight, then reports the value and then an empty filter |
| ComboboxControl.Combobox.HandleClear | src/components/ComboboxControl.jsx:98-105 | empties the input, closes, clears the highlight, then reports `null` and an empty filter |
| ComboboxControl.Combobox.HandleKeyDown | src/components/ComboboxControl.jsx:107-133 | while closed only ArrowDown acts, and only opens; while open the arrows move clamped, Enter commits only an existing highlighted option, Escape closes and restores the label, other keys do nothing |
| ComboboxControl.Combobox.HandleOutsideMouseDown | src/components/ComboboxControl.jsx:56-60 | an outside mousedown runs the close-and-restore, open or not |
| CustomSelectControl.SelectedOption | src/components/CustomSelectControl.jsx:31 | the shown option is `value` when given, else the first option, and absent only when there is neither |
| CustomSelectControl.ItemAt | src/components/CustomSelectControl.jsx:76 | the indexed option exists exactly for an index inside the list |
| CustomSelectControl.Select.constructor | src/components/CustomSelectControl.jsx:26-27 | starts closed with nothing highlighted |
| CustomSelectControl.Select.HandleToggle | src/components/CustomSelectControl.jsx:46 | a button click flips the menu |
| CustomSelectControl.Select.HandleSelect | src/components/CustomSelectControl.jsx:48-53 | reports the item once when `onChange` is given and closes, keeping the highlight |
| CustomSelectControl.Select.HandleKeyDown | src/components/CustomSelectControl.jsx:55-85 | while closed only Enter and Space act, and only open; while open the arrows move clamped, Enter and Space select exactly when the index is not negative, Escape closes keeping the highlight |
| CustomSelectControl.Select.HandleHover | src/components/CustomSelectControl.jsx:114 | hovering option i highlights i |
| CustomSelectControl.Select.HandleOutsideMouseDown | src/components/CustomSelectControl.jsx:33-44 | an outside mousedown closes the menu, and does nothing while it is closed |
| CustomSelectControl.EmptyListSelection | src/components/CustomSelectControl.jsx:69-78 | on an empty list, Enter, ArrowUp and Enter leave the index at 0, the menu closed, and one report of an undefined item |
| Dropdown.Overlay.constructor | src/components/Dropdown.jsx:35 | the panel starts open exactly when `defaultOpen` is set |
| Dropdown.Overlay.HandleToggle | src/components/Dropdown.jsx:67-76 | flips the panel, reports the new state once and reports a close only when it is now closed |
| Dropdown.Overlay.HandleClose | src/components/Dropdown.jsx:81-89 | always ends closed and reports `onToggle(false)` then `onClose()`, even when already closed |
| Dropdown.Overlay.HandleDocumentMouseDown | src/components/Dropdown.jsx:39-46 | a mousedown outside closes the open panel; otherwise nothing changes |
| Dropdown.Overlay.HandleDocumentKeyDown | src/components/Dropdown.jsx:48-52 | Escape closes the open panel; any other key, or a closed panel, changes nothing |
| Dropdown.PositionModifierSpec | src/components/Dropdown.jsx:92 | only the first space becomes a hyphen, the length is kept, and without a space nothing changes |
| Dropdown.PositionModifierAt | src/components/Dropdown.jsx:92 | the first space, wherever it is, becomes a hyphen and the text on both sides is kept |
| Dropdown.PositionModifierExample | src/components/Dropdown.jsx:92 | the default position "bottom left" becomes "bottom-left" |
| Dropdown.PositionModifierSecondSpace | src/components/Dropdown.jsx:92 | in "top  right" only the first space is replaced: "top- right" |
| Dropdown.ClassNames | src/components/Dropdown.jsx:94-100 | the joined class list is empty exactly when every part is empty |
| Dropdown.ContentClassSpec | src/components/Dropdown.jsx:94-100 | the content class is the base class, the position class and a non-empty `contentClassName`, separated by single spaces |
| Dropdown.WrapperClass | src/components/Dropdown.jsx:102 | the wrapper class is `dropdown`, followed by a space and `className` exactly when that is not empty |
| DropdownMenu.FlattenSingle | src/components/DropdownMenu.jsx:48 | one group flattens to its own controls |
| DropdownMenu.Groups | src/components/DropdownMenu.jsx:48 | there is always at least one group; flattening the groups gives every control in the prop's order; a non-empty grouped prop is kept as it is |
| DropdownMenu.Menu.constructor | src/components/DropdownMenu.jsx:22 | the menu starts closed |
| DropdownMenu.Menu.HandleToggle | src/components/DropdownMenu.jsx:38 | the trigger flips the menu |
| DropdownMenu.Menu.HandleItemClick | src/components/DropdownMenu.jsx:40-45 | the control's `onClick` runs once when it has one, and the menu ends closed either way |
| DropdownMenu.Menu.HandleDocumentMouseDown | src/components/DropdownMenu.jsx:25-36 | the menu stays open exactly when it was open and the mousedown was inside |
| ToolsPanel.Toggled | src/components/ToolsPanel.jsx:32-41 | the label is in the new set exactly when shown; every other label's membership is unchanged |
| ToolsPanel.ToggledIdempotent | src/components/ToolsPanel.jsx:35-40 | toggling twice with the same arguments equals toggling once |
| ToolsPanel.ToggledShowHide | src/components/ToolsPanel.jsx:32-41 | showing and then hiding a label that was not displayed restores the set |
| ToolsPanel.ShownAfterRemove | src/components/ToolsPanel.jsx:98-110 | after removal an item stays shown exactly when it is shown by default or still has a value |
| ToolsPanel.IsShown | src/components/ToolsPanel.jsx:98 | an item shown by default or with a value is always shown; a hidden item is not in the displayed set |
| ToolsPanel.Panel.constructor | src/components/ToolsPanel.jsx:29-30 | nothing is displayed and the menu is closed at first |
| ToolsPanel.Panel.ToggleItem | src/components/ToolsPanel.jsx:32-41 | the displayed set becomes the toggled set |
| ToolsPanel.Panel.HandleResetAll | src/components/ToolsPanel.jsx:44-50 | calls `resetAll` once when given, empties the set and closes the menu |
| ToolsPanel.Panel.ToggleMenu | src/components/ToolsPanel.jsx:60 | the options button flips the menu |
| ToolsPanel.Panel.HandleRemove | src/components/ToolsPanel.jsx:105-110 | calls `onDeselect` once when given, then removes the label from the set |
| TabPanel.DefaultTab | src/components/TabPanel.jsx:32 | the initial name is `initialTabName` when non-empty, else the first tab's name, else empty |
| TabPanel.FindTab | src/components/TabPanel.jsx:42 | finds the first tab with the name, or none when no tab has it |
| TabPanel.ActiveTab | src/components/TabPanel.jsx:42 | the shown tab is absent exactly when there are no tabs (so content renders exactly when a tab exists); it is the first tab with the active name, else the first tab |
| TabPanel.AtMostOneActive | src/components/TabPanel.jsx:53 | with unique names at most one button is marked active, and it holds the tab whose content is shown |
| TabPanel.IsActive | src/components/TabPanel.jsx:53 | a button is marked active exactly when its tab's name is the active name (its consequences are `AtMostOneActive`) |
| TabPanel.Panel.constructor | src/components/TabPanel.jsx:32-33 | the active name starts as the default tab |
| TabPanel.Panel.HandleSelect | src/components/TabPanel.jsx:35-40 | the active name becomes the clicked name, reported once when `onSelect` is given |
| TabPanel.SelectShowsTab | src/components/TabPanel.jsx:42 | with unique names, selecting a tab's name shows that tab |
| BoxControl.SplitValue | src/components/BoxControl.jsx:11 | a match splits the string into a `-?[\d.]*` number and `[a-z%]*` unit letters |
| BoxControl.SplitValueOf | src/components/BoxControl.jsx:11-13 | a number followed by unit letters always matches, and splits exactly there |
| BoxControl.SplitValueAt | src/components/BoxControl.jsx:11-13 | a match is a split of the string at the end of its number group |
| BoxControl.SplitValueNone | src/components/BoxControl.jsx:11-14 | the match fails only when no split into a number and unit letters exists |
| BoxControl.ParseUnsplittable | src/components/BoxControl.jsx:11-14 | a non-empty string that no such split fits parses to no number and `px` |
| BoxControl.ParseValue | src/components/BoxControl.jsx:9-15 | undefined, null and the empty string parse to no number and `px`; the number always has the `-?[\d.]*` shape and the unit is never empty |
| BoxControl.ParseNumber | src/components/BoxControl.jsx:10-13 | a number, zero included, parses to its decimal text and `px` |
| BoxControl.ParseRoundTrip | src/components/BoxControl.jsx:11-13 | a non-empty number followed by non-empty unit letters parses back to both |
| BoxControl.BuildValue | src/components/BoxControl.jsx:61 | the built value is empty exactly for the empty number, and is otherwise the number followed by the unit |
| BoxControl.BuildParse | src/components/BoxControl.jsx:61 | parsing what `buildValue` writes gives back the number and the unit (or nothing and `px` for the empty number) |
| BoxControl.FirstTruthy | src/components/BoxControl.jsx:52-53 | the value found is the first one that is not falsy (`null`, `''` or `0`), in key order, or none exactly when every value is falsy |
| BoxControl.ChangeShows | src/components/BoxControl.jsx:59-68 | once a change setting some sides is fed back, each of those sides shows the typed number |
| BoxControl.UnitChangeKeepsNumbers | src/components/BoxControl.jsx:74-84 | once a unit change is fed back, every active side keeps its number, and a side with a number now carries the new unit |
| BoxControl.AxisEmissions | src/components/BoxControl.jsx:147-151 | the split-axis input emits one object per side of the axis |
| BoxControl.AxisEmissionsAt | src/components/BoxControl.jsx:147-151 | the object emitted for a side is the unchanged `values` with that one side set |
| BoxControl.AxisInputKeepsFirstSide | src/components/BoxControl.jsx:147-151 | typing in the Vertical input leaves a last emission whose top still holds its old value |
| BoxControl.AxisUpdate | src/components/BoxControl.jsx:147-151 | the corrected split-axis update sets every side of the axis and keeps every other key |
| BoxControl.AxisUpdateShowsBoth | src/components/BoxControl.jsx:147-151 | with the corrected update fed back, top and bottom both show the typed number |
| BoxControl.FirstListed | src/components/BoxControl.jsx:139 | `find` gives the position of the first candidate that the input lists, or none exactly when no candidate is listed |
| BoxControl.Box.constructor | src/components/BoxControl.jsx:53-56 | the unit starts as that of the first non-falsy value (never empty) and the sides start linked |
| BoxControl.Box.ToggleLinked | src/components/BoxControl.jsx:113 | the link button flips linked mode |
| BoxControl.Box.LinkedNum | src/components/BoxControl.jsx:87 | the linked input shows a `-?[\d.]*` number, and nothing when unlinked |
| BoxControl.LinkedNumAfterChange | src/components/BoxControl.jsx:63-87 | once a linked change is fed back, the linked input shows the number typed |
| BoxControl.Box.DisplaySides | src/components/BoxControl.jsx:90-93 | split on axis, the inputs edit top with bottom and right with left; otherwise one input edits each active side |
| BoxControl.Box.ShownSide | src/components/BoxControl.jsx:137-140 | off an axis an input shows its own side; on an axis it shows the first active side (in active-side order) that its pair lists, falling back to the pair's first side when that side is empty or none is listed |
| BoxControl.Box.SetActiveSides | src/components/BoxControl.jsx:66-68 | the loop writes the value to every active side and keeps every other key; the keys of `values` come first, in their order |
| BoxControl.Box.HandleChange | src/components/BoxControl.jsx:63-72 | nothing without `onChange`; otherwise one emission that sets every active side (linked) or only the given side (unlinked) to the built value, keeping the keys of `values` first in their order |
| BoxControl.Box.ChangeOneSide | src/components/BoxControl.jsx:70 | the unlinked change emits `values` with the one side set |
| BoxControl.Box.HandleUnitChange | src/components/BoxControl.jsx:74-84 | takes the new unit, then, when `onChange` is given, emits once with every active side rewritten to its number and the new unit (or empty), keeping the keys of `values` first in their order |
| BoxControl.Box.HandleSideInput | src/components/BoxControl.jsx:147-151 | an unlinked input emits one object per side it edits, each spread from the same `values` |
| JsObject.Keys | src/components/BoxControl.jsx:53 | the keys, in insertion order, one per entry |
| JsObject.Get | src/components/BoxControl.jsx:59 | a property read is undefined exactly for a missing key |
| JsObject.GetAt | src/components/BoxControl.jsx:59 | in an object with distinct keys, each key reads the value stored with it |
| JsObject.Assign | src/components/BoxControl.jsx:70 | assignment sets the key, keeps every other key's value, keeps the key order (appending a new key) and keeps keys distinct |
| JsObject.Spread | src/components/BoxControl.jsx:68 | in `{ ...a, ...b }` keys of `b` take b's values, every other key keeps a's, and a's keys come first in their order |
| UnitControl.MatchValue | src/components/UnitControl.jsx:38 | a match splits the value into a greedy digits-and-dots prefix and a rest without line terminators; it fails exactly when the value holds a line terminator |
| UnitControl.ParseValue | src/components/UnitControl.jsx:36-44 | the number is a digits-and-dots prefix of the value; the unit is listed or is the first unit, and is always listed when the first unit is non-empty; the empty value gives no number and the first unit |
| UnitControl.LongestNumber | src/components/UnitControl.jsx:38-43 | for a value without line terminators the number is the longest prefix of digits and dots |
| UnitControl.UnlistedUnitFallsBack | src/components/UnitControl.jsx:38-43 | a matched unit that is not listed falls back to `units[0]`, or `px` when that is missing or empty |
| UnitControl.NegativeHasNoNumber | src/components/UnitControl.jsx:38-43 | a leading `-` leaves the number empty |
| UnitControl.ParseRoundTrip | src/components/UnitControl.jsx:38-43 | a digits-and-dots number followed by a listed unit that does not start with a digit or dot parses back to both |
| UnitControl.HandleNumberChange | src/components/UnitControl.jsx:48-51 | emits exactly when enabled with `onChange`, and then the typed text followed by the unit |
| UnitControl.HandleUnitChange | src/components/UnitControl.jsx:53-56 | emits exactly when enabled with `onChange`, and then a string ending in the chosen unit |
| UnitControl.NumberChangeKeepsUnit | src/components/UnitControl.jsx:48-51 | the emitted string parses back to the typed number and the current unit |
| UnitControl.UnitChangeKeepsNumber | src/components/UnitControl.jsx:53-56 | the emitted string parses back to the current number and the chosen unit |
| UnitControl.EmptyFirstUnit | src/components/UnitControl.jsx:37 | with `units` `['']` the resolved unit is `px`, which is not listed |
| Text.Span | src/components/UnitControl.jsx:38 | the greedy scan takes a prefix of the class and stops before the first character outside it |
| Text.SpanOf | src/components/UnitControl.jsx:38 | the greedy prefix is the only split into a run of the class and a rest not starting with one |
| ColorPicker.ScanNumber | src/components/ColorPicker.jsx:13 | `(\d+)` matches exactly when the text starts with a digit, and consumes the whole digit run |
| ColorPicker.Drop | src/components/ColorPicker.jsx:13 | `\s*` skips a run of the class from the front and stops at the first character outside it |
| ColorPicker.ScanComma | src/components/ColorPicker.jsx:13 | `,\s*` matches exactly at a comma and skips every space after it |
| ColorPicker.ScanComponents | src/components/ColorPicker.jsx:13 | the three components need a leading digit and stop after a complete digit run |
| ColorPicker.ScanClose | src/components/ColorPicker.jsx:13 | the close needs a `)`; it carries an alpha exactly when it starts with a comma, and that alpha is a non-empty run of digits and dots |
| ColorPicker.Opening | src/components/ColorPicker.jsx:13 | the opening `rgba?(` matches only where the text `rgb` starts |
| ColorPicker.MatchHere | src/components/ColorPicker.jsx:13 | a match at a position starts with `rgb` |
| ColorPicker.Search | src/components/ColorPicker.jsx:12-14 | `color.match` tries each start position from the left and reports the first match; its meaning is stated by `SearchNone` and `SearchLeftmost` |
| ColorPicker.SearchNone | src/components/ColorPicker.jsx:12-14 | `color.match` finds nothing exactly when the pattern matches at no start position |
| ColorPicker.SearchLeftmost | src/components/ColorPicker.jsx:12-14 | the match found is the one at the leftmost start position where the pattern matches |
| ColorPicker.SearchNeedsRgb | src/components/ColorPicker.jsx:12-14 | any match needs the text `rgb` somewhere in the input |
| ColorPicker.MatchHereOf | src/components/ColorPicker.jsx:12-14 | `rgb(` or `rgba(` with three numbers matches exactly when the rest closes it, and yields the numbers' values |
| ColorPicker.HexOf | src/components/ColorPicker.jsx:21-25 | the hex is `#` followed by at least six characters |
| ColorPicker.ParseColor | src/components/ColorPicker.jsx:9-31 | the empty colour is black with alpha 1; input without a match is returned as the hex with alpha 1; a match gives the hex of its three components, with alpha `One` when the alpha group took no part and otherwise the captured alpha text |
| ColorPicker.NonRgbUnchanged | src/components/ColorPicker.jsx:30 | a colour without the text `rgb` is its own hex, with alpha 1 |
| ColorPicker.ParseRgb | src/components/ColorPicker.jsx:16-26 | `rgb(r, g, b)` parses to the hex of the three components, with alpha 1 |
| ColorPicker.ParseRgba | src/components/ColorPicker.jsx:16-26 | `rgba(r, g, b, a)` keeps the digits-and-dots alpha text |
| ColorPicker.HexOfMatches | src/components/ColorPicker.jsx:21-25 | components in 0..255 give `#` and six lower-case hex digits that convert back to them |
| ColorPicker.HexMatch | src/components/ColorPicker.jsx:41 | matches exactly six hex digits of either case, with or without one leading `#` |
| ColorPicker.HexToRgba | src/components/ColorPicker.jsx:40-47 | a hex that matches gives the rgba of its components; anything else gives black |
| ColorPicker.HashOptional | src/components/ColorPicker.jsx:41 | six hex digits convert the same with or without `#` |
| ColorPicker.RgbRoundTrip | src/components/ColorPicker.jsx:16-46 | for components in 0..255, converting the parsed `rgb(r, g, b)` back gives `rgba(r, g, b, a)` |
| ColorPicker.WideComponentIsBlack | src/components/ColorPicker.jsx:41-42 | a component above 255 makes the hex too long, and the conversion back falls to black |
| ColorPicker.EmitChange | src/components/ColorPicker.jsx:71-78 | emits exactly when `onChange` is given: the rgba string with alpha enabled, the hex otherwise |
| Text.NatToDecimal | src/components/ColorPicker.jsx:17-19 | a natural number renders as a non-empty digit string without leading zeros |
| Text.DecimalRoundTrip | src/components/ColorPicker.jsx:17-19 | `parseInt` of a number's decimal rendering gives the number |
| Text.HexChar | src/components/ColorPicker.jsx:24 | a digit below 16 renders as a lower-case hex digit that reads back as the same digit |
| Text.HexValue | src/components/ColorPicker.jsx:43-45 | a hex digit of either case has a value below 16 |
| Text.NatToHex | src/components/ColorPicker.jsx:24 | `toString(16)` is a non-empty run of lower-case hex digits without a leading zero |
| Text.HexByteRoundTrip | src/components/ColorPicker.jsx:24 | a component in 0..255 becomes two lower-case hex digits that parse back to it |
| Text.HexByteWide | src/components/ColorPicker.jsx:24 | a component above 255 renders to more than two hex digits |
| NumberControl.Increment | src/components/NumberControl.jsx:41-47 | emits exactly when enabled with `onChange` and the sum stays within `max`; the emitted value is the base plus the step and never above `max` |
| NumberControl.Decrement | src/components/NumberControl.jsx:49-55 | emits exactly when enabled with `onChange` and the difference stays within `min`; the emitted value is the base minus the step and never below `min` |
| NumberControl.UpDisabled | src/components/NumberControl.jsx:82 | the `disabled` prop always disables the up button; without a value or a `max` it is the only thing that does |
| NumberControl.DownDisabled | src/components/NumberControl.jsx:91 | the `disabled` prop always disables the down button; without a value or a `min` it is the only thing that does |
| NumberControl.ZeroAtBound | src/components/NumberControl.jsx:82-91 | a value of 0 at a bound of 0 disables that button, while an absent value disables neither |
| NumberControl.UnitStepUp | src/components/NumberControl.jsx:82 | with step 1 and a value, the up button reports exactly when it is enabled |
| NumberControl.UnitStepDown | src/components/NumberControl.jsx:91 | with step 1 and a value, the down button reports exactly when it is enabled |
| NumberControl.OvershootDropped | src/components/NumberControl.jsx:43-46 | a larger step can overshoot: the button is enabled, yet nothing is reported |
| FontSizePicker.Presets | src/components/FontSizePicker.jsx:29-37 | the given presets, or the five defaults 13, 16, 20, 24 and 32 when none are given |
| FontSizePicker.MinSize | src/components/FontSizePicker.jsx:39 | the minimum is a preset's size and no preset is smaller |
| FontSizePicker.MaxSize | src/components/FontSizePicker.jsx:40 | the maximum is a preset's size and no preset is larger |
| FontSizePicker.DefaultRange | src/components/FontSizePicker.jsx:29-40 | without presets the range runs from 13 to 32 |
| FontSizePicker.HandlePresetClick | src/components/FontSizePicker.jsx:42-44 | emits once when `onChange` is given: undefined exactly when the preset is the current value, else its size |
| FontSizePicker.IsActive | src/components/FontSizePicker.jsx:81 | a preset is marked active exactly when clicking it clears the value, which needs a value to be set |
| FontSizePicker.PresetToggles | src/components/FontSizePicker.jsx:42-44 | clicking the active preset clears it and clicking it again sets it; the button is active exactly when its size is the value |
| FontSizePicker.HandleReset | src/components/FontSizePicker.jsx:55-57 | reset emits undefined, once when `onChange` is given |
| FontSizePicker.HandleCustomChange | src/components/FontSizePicker.jsx:46-49 | emits the parsed number, or undefined when the text does not parse |
| Spacer.Px | src/components/Spacer.jsx:29 | a value is the decimal of the grid count times 4 followed by `px` |
| Spacer.SetSide | src/components/Spacer.jsx:36-47 | one side assignment replaces that side's value and keeps the others |
| Spacer.BuildStyle | src/components/Spacer.jsx:26-47 | each side holds its own prop when given, else its axis prop, else has no key |
| Spacer.OverrideExample | src/components/Spacer.jsx:28-38 | `marginY={2}` with `marginTop={5}` gives a top of `20px`, a bottom of `8px` and no left key |

## Left out

- Rendering: JSX markup, aria attributes and class-name strings other than the dropdown's are not modelled. This includes the custom select's selected-option marker and the labels of the box control's inputs.
- DOM listeners: registration, removal and `contains()` hit-testing are abstracted. An outside mousedown is a boolean input or a method of its own, and a document key press is a key input.
- React scheduling: `useEffect` timing, state batching and functional updaters are left out. Each handler is one atomic transition, and the combobox's label sync is a method (`SyncLabel`) the caller runs.
- Parent feedback: a parent that stores each `onChange` argument and re-renders is modelled as a new prop value (`SetValue`) or as a lemma hypothesis (`ChangeShows`, `UnitChangeKeepsNumbers`). Only the token field has such a `SetValue` step. The combobox's `value` and `options` are constants of one render, so a new `value` from the parent followed by `SyncLabel` is not modelled; `SyncLabel` works on the current props only.
- Floating point: `parseFloat` and `Number` are not modelled.
  - Number and font-size values are integers, and a parsed custom input arrives as an `Option<int>`.
  - The colour alpha is its text as captured, or as the template literal renders it.
  - The number control's text `handleChange` and the font-size slider are float conversions only and are left out.
- Props of the wrong type: `null`, `false`, `NaN` and values of the wrong type are left out. An absent prop is `None`, and the box control's `values` hold `null`, integers and strings.
- Mixed control arrays: a dropdown-menu `controls` prop that mixes arrays and single controls is left out. The prop is either flat or grouped.
- Integer-like keys: JavaScript orders integer-like keys of an object before the others, and `Object.values` follows that order. Side names are never integer-like, so `JsObject` keeps pure insertion order.
- Browser focus: `inputRef.current?.focus()` calls are left out.
- Spacer.BuildStyle: states the value of every side but not the order of the keys in the style object.
- Text.Lower: folds only the ASCII letters A-Z; `toLowerCase` on other scripts is not modelled.
- BoxControl.ParseNumber: renders every integer as plain decimal digits. JavaScript's `String(n)` switches to exponent form (`1e+21`) once the magnitude reaches 10^21, and `parseValue` then stops at the `+`; that range is not modelled.
- Text.DecimalValue: is exact for digit strings of any length, where `parseInt` loses precision beyond 2^53.

## Findings

| source | as written | input that shows it | evidently intended | confidence | as-written member | corrected member |
|---|---|---|---|---|---|---|
| src/components/BoxControl.jsx:147-151 | An unlinked split-axis input calls `handleChange` once per side of its axis. Each call spreads the same `values` and sets one side, so the last `onChange` argument still holds the other side's old value. | `splitOnAxis`, unlinked, `values` `{ top: '1px', bottom: '1px' }`, typing `2` in Vertical: the last emission is `{ top: '1px', bottom: '2px' }` | one emission with both sides of the axis set: `{ top: '2px', bottom: '2px' }` | high; not executed | BoxControl.AxisInputKeepsFirstSide | BoxControl.AxisUpdate |
