/**
 * TabPanel: a row of tab buttons and the content of the active tab. Its one
 * piece of state is the active tab's name; `onSelect` calls are recorded in
 * the ghost trace `selected`.
 */
module TabPanel {
  import opened Wrappers

  datatype Tab = Tab(name: string, title: string)

  /** `initialTabName || (tabs[0]?.name ?? '')`; an absent `initialTabName` is the empty string here, which `||` treats alike. */
  function DefaultTab(initialTabName: string, tabs: seq<Tab>): (r: string)
    ensures initialTabName != "" ==> r == initialTabName
    ensures initialTabName == "" && tabs != [] ==> r == tabs[0].name
    ensures initialTabName == "" && tabs == [] ==> r == ""
  {
    if initialTabName != "" then initialTabName
    else if tabs != [] then tabs[0].name
    else ""
  }

  /** The index of the first tab called `name`. */
  function FindTab(tabs: seq<Tab>, name: string): (r: Option<nat>)
    ensures r.Some? ==> r.value < |tabs| && tabs[r.value].name == name
    ensures r.Some? ==> forall k :: 0 <= k < r.value ==> tabs[k].name != name
    ensures r.None? ==> forall k :: 0 <= k < |tabs| ==> tabs[k].name != name
  {
    if tabs == [] then None
    else if tabs[0].name == name then Some(0)
    else match FindTab(tabs[1..], name)
      case Some(k) => Some(k + 1)
      case None => None
  }

  /**
   * `tabs.find((tab) => tab.name === activeTabName) || tabs[0]`: the first tab
   * with the active name, else the first tab; absent only when there are no
   * tabs, and the content is rendered exactly when it is present.
   */
  function ActiveTab(tabs: seq<Tab>, activeTabName: string): (r: Option<Tab>)
    ensures r.None? <==> tabs == []
    ensures r.Some? ==> r.value in tabs
    ensures (forall k :: 0 <= k < |tabs| ==> tabs[k].name != activeTabName) && tabs != [] ==> r == Some(tabs[0])
    ensures forall k :: (0 <= k < |tabs| && tabs[k].name == activeTabName
                         && (forall j :: 0 <= j < k ==> tabs[j].name != activeTabName)) ==> r == Some(tabs[k])
  {
    match FindTab(tabs, activeTabName)
    case Some(k) => Some(tabs[k])
    case None => if tabs == [] then None else Some(tabs[0])
  }

  /** `tab.name === activeTabName`: the button carries the active class. */
  predicate IsActive(tab: Tab, activeTabName: string) {
    tab.name == activeTabName
  }

  predicate UniqueNames(tabs: seq<Tab>) {
    forall i, j :: 0 <= i < j < |tabs| ==> tabs[i].name != tabs[j].name
  }

  /** With unique names, at most one button is marked active, and a marked button holds the tab the content shows. */
  lemma AtMostOneActive(tabs: seq<Tab>, activeTabName: string, i: nat, j: nat)
    requires UniqueNames(tabs)
    requires i < |tabs| && j < |tabs|
    requires IsActive(tabs[i], activeTabName) && IsActive(tabs[j], activeTabName)
    ensures i == j
    ensures ActiveTab(tabs, activeTabName) == Some(tabs[i])
  {
  }

  class Panel {
    const tabs: seq<Tab>
    const hasOnSelect: bool

    var activeTabName: string
    /** Every `onSelect` call, oldest first. */
    ghost var selected: seq<string>

    constructor (tabs: seq<Tab>, initialTabName: string, hasOnSelect: bool)
      ensures this.tabs == tabs && this.hasOnSelect == hasOnSelect
      ensures activeTabName == DefaultTab(initialTabName, tabs) && selected == []
    {
      this.tabs := tabs;
      this.hasOnSelect := hasOnSelect;
      activeTabName := DefaultTab(initialTabName, tabs);
      selected := [];
    }

    /** `handleSelect`: make `name` active and report it. */
    method HandleSelect(name: string)
      modifies this`activeTabName, this`selected
      ensures activeTabName == name
      ensures selected == old(selected) + (if hasOnSelect then [name] else [])
    {
      activeTabName := name;
      if hasOnSelect {
        selected := selected + [name];
      }
    }
  }

  /** Clicking a tab's button makes that tab the one whose content is shown, whenever names are unique. */
  lemma SelectShowsTab(tabs: seq<Tab>, k: nat)
    requires UniqueNames(tabs) && k < |tabs|
    ensures ActiveTab(tabs, tabs[k].name) == Some(tabs[k])
  {
    AtMostOneActive(tabs, tabs[k].name, k, k);
  }
}
