/**
 * DropdownMenu: a trigger button and a list of controls, either flat or in
 * groups. Its one piece of state is `isOpen`; the controls' `onClick` calls
 * are recorded in the ghost trace `clicked`.
 */
module DropdownMenu {

  /** One menu entry; `hasOnClick` says whether it carries an `onClick` handler. */
  datatype Control = Control(title: string, hasOnClick: bool)

  /** The `controls` prop: an array of controls, or an array of arrays of controls. */
  datatype Controls = Flat(items: seq<Control>) | Grouped(groups: seq<seq<Control>>)

  function Flatten(groups: seq<seq<Control>>): seq<Control> {
    if groups == [] then [] else groups[0] + Flatten(groups[1..])
  }

  /** Every control of the prop, in the order the prop lists them. */
  function AllControls(controls: Controls): seq<Control> {
    match controls
    case Flat(items) => items
    case Grouped(groups) => Flatten(groups)
  }

  lemma FlattenSingle(items: seq<Control>)
    ensures Flatten([items]) == items
  {
    assert [items][1..] == [];
  }

  /**
   * `Array.isArray(controls[0]) ? controls : [controls]`: there is always at
   * least one group, a grouped prop keeps its groups, and the groups list
   * exactly the controls of the prop in their order. An empty array of groups
   * has no first element, so it is wrapped like a flat list: one empty group.
   */
  function Groups(controls: Controls): (r: seq<seq<Control>>)
    ensures |r| >= 1
    ensures Flatten(r) == AllControls(controls)
    ensures controls.Grouped? && controls.groups != [] ==> r == controls.groups
  {
    match controls
    case Flat(items) =>
      FlattenSingle(items);
      [items]
    case Grouped(groups) =>
      if groups == [] then
        FlattenSingle([]);
        [[]]
      else groups
  }

  class Menu {
    var isOpen: bool
    /** Every `onClick` call, oldest first. */
    ghost var clicked: seq<Control>

    /** The menu starts closed. */
    constructor ()
      ensures !isOpen && clicked == []
    {
      isOpen := false;
      clicked := [];
    }

    /** A click on the trigger flips the menu. */
    method HandleToggle()
      modifies this`isOpen
      ensures isOpen == !old(isOpen)
    {
      isOpen := !isOpen;
    }

    /** `handleItemClick`: run the control's `onClick` when it has one, and close the menu either way. */
    method HandleItemClick(control: Control)
      modifies this`isOpen, this`clicked
      ensures !isOpen
      ensures clicked == old(clicked) + (if control.hasOnClick then [control] else [])
    {
      if control.hasOnClick {
        clicked := clicked + [control];
      }
      isOpen := false;
    }

    /** A mousedown in the document closes the menu when it is open and the target is outside; the listener exists only while open. */
    method HandleDocumentMouseDown(outside: bool)
      modifies this`isOpen
      ensures isOpen == (old(isOpen) && !outside)
    {
      if isOpen && outside {
        isOpen := false;
      }
    }
  }
}
