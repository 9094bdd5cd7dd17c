/**
 * ToolsPanel and ToolsPanelItem: a panel whose optional items the user can
 * show and hide. The panel keeps the set of labels the user has displayed and
 * whether its options menu is open; calls of `resetAll` and of an item's
 * `onDeselect` are recorded in the ghost trace `emitted`.
 */
module ToolsPanel {

  /** One callback call: the panel's `resetAll()` or the item's `onDeselect()`, named by its label. */
  datatype Emission = ResetAll | Deselected(itemLabel: string)

  /**
   * The updater `toggleItem` hands to React: a copy of `prev` with `itemLabel`
   * added when `isShown` holds and deleted otherwise. No other label changes.
   */
  function Toggled(prev: set<string>, itemLabel: string, isShown: bool): (next: set<string>)
    ensures itemLabel in next <==> isShown
    ensures forall other :: other != itemLabel ==> (other in next <==> other in prev)
  {
    if isShown then prev + {itemLabel} else prev - {itemLabel}
  }

  /** Toggling twice with the same arguments is the same as toggling once. */
  lemma ToggledIdempotent(prev: set<string>, itemLabel: string, isShown: bool)
    ensures Toggled(Toggled(prev, itemLabel, isShown), itemLabel, isShown) == Toggled(prev, itemLabel, isShown)
  {
    var once := Toggled(prev, itemLabel, isShown);
    var twice := Toggled(once, itemLabel, isShown);
    assert forall l :: l in twice <==> l in once;
  }

  /** Showing a label and then hiding it again restores a set that did not hold it. */
  lemma ToggledShowHide(prev: set<string>, itemLabel: string)
    requires itemLabel !in prev
    ensures Toggled(Toggled(prev, itemLabel, true), itemLabel, false) == prev
  {
    var back := Toggled(Toggled(prev, itemLabel, true), itemLabel, false);
    assert forall l :: l in back <==> l in prev;
  }

  /** A `ToolsPanelItem`'s props (`label` is a Dafny keyword, hence `itemLabel`); `hasOnDeselect` says whether it carries `onDeselect`. */
  datatype Item = Item(itemLabel: string, isShownByDefault: bool, hasOnDeselect: bool)

  /** `isShownByDefault || displayedItems.has(label) || hasValue()`; `hasValue` is the value the item's callback returns now. */
  predicate IsShown(item: Item, displayed: set<string>, hasValue: bool): (r: bool)
    ensures item.isShownByDefault || hasValue ==> r
    ensures !r ==> item.itemLabel !in displayed
  {
    item.isShownByDefault || item.itemLabel in displayed || hasValue
  }

  /** After its label leaves the displayed set, an item stays shown exactly when it is shown by default or still has a value. */
  lemma ShownAfterRemove(item: Item, displayed: set<string>, hasValue: bool)
    ensures IsShown(item, Toggled(displayed, item.itemLabel, false), hasValue) <==> item.isShownByDefault || hasValue
  {
  }

  class Panel {
    const hasResetAll: bool

    var displayedItems: set<string>
    var menuOpen: bool
    /** Every callback call, oldest first. */
    ghost var emitted: seq<Emission>

    /** Nothing is displayed and the menu is closed at first. */
    constructor (hasResetAll: bool)
      ensures this.hasResetAll == hasResetAll
      ensures displayedItems == {} && !menuOpen && emitted == []
    {
      this.hasResetAll := hasResetAll;
      displayedItems := {};
      menuOpen := false;
      emitted := [];
    }

    /** `toggleItem`: copy the set, then add or delete the label in the copy. */
    method ToggleItem(itemLabel: string, isShown: bool)
      modifies this`displayedItems
      ensures displayedItems == Toggled(old(displayedItems), itemLabel, isShown)
    {
      var next := displayedItems;
      if isShown {
        next := next + {itemLabel};
      } else {
        next := next - {itemLabel};
      }
      displayedItems := next;
    }

    /** `handleResetAll`: call `resetAll` when given, then empty the displayed set and close the menu. */
    method HandleResetAll()
      modifies this`displayedItems, this`menuOpen, this`emitted
      ensures displayedItems == {} && !menuOpen
      ensures emitted == old(emitted) + (if hasResetAll then [ResetAll] else [])
    {
      if hasResetAll {
        emitted := emitted + [ResetAll];
      }
      displayedItems := {};
      menuOpen := false;
    }

    /** The options button flips the menu. */
    method ToggleMenu()
      modifies this`menuOpen
      ensures menuOpen == !old(menuOpen)
    {
      menuOpen := !menuOpen;
    }

    /** An item's `handleRemove`: call its `onDeselect` when given, then hide its label. */
    method HandleRemove(item: Item)
      modifies this`displayedItems, this`emitted
      ensures displayedItems == Toggled(old(displayedItems), item.itemLabel, false)
      ensures emitted == old(emitted) + (if item.hasOnDeselect then [Deselected(item.itemLabel)] else [])
    {
      if item.hasOnDeselect {
        emitted := emitted + [Deselected(item.itemLabel)];
      }
      ToggleItem(item.itemLabel, false);
    }
  }
}
