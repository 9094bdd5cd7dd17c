/**
 * Dropdown: a trigger plus a floating panel. Its one piece of state is
 * `isOpen`; `onToggle` and `onClose` calls are recorded in the ghost trace
 * `emitted`. While the panel is open, a mousedown outside it and an Escape
 * key press anywhere in the document close it.
 */
module Dropdown {
  import opened Listbox

  /** One callback call: `onToggle(isOpen)` or `onClose()`. */
  datatype Emission = Toggled(isOpen: bool) | Closed

  class Overlay {
    const hasOnToggle: bool
    const hasOnClose: bool

    var isOpen: bool
    /** Every callback call, oldest first. */
    ghost var emitted: seq<Emission>

    /** The panel starts open exactly when `defaultOpen` is set. */
    constructor (defaultOpen: bool, hasOnToggle: bool, hasOnClose: bool)
      ensures isOpen == defaultOpen && emitted == []
      ensures this.hasOnToggle == hasOnToggle && this.hasOnClose == hasOnClose
    {
      this.hasOnToggle := hasOnToggle;
      this.hasOnClose := hasOnClose;
      isOpen := defaultOpen;
      emitted := [];
    }

    /** What closing reports: `onToggle(false)`, then `onClose()`. */
    function CloseEmissions(): seq<Emission> {
      (if hasOnToggle then [Toggled(false)] else []) + (if hasOnClose then [Closed] else [])
    }

    /** `handleToggle`: flip, report the new state once, and report `onClose` only when it is now closed. */
    method HandleToggle()
      modifies this`isOpen, this`emitted
      ensures isOpen == !old(isOpen)
      ensures emitted == old(emitted) + (if hasOnToggle then [Toggled(isOpen)] else [])
                         + (if !isOpen && hasOnClose then [Closed] else [])
    {
      var nextOpen := !isOpen;
      isOpen := nextOpen;
      if hasOnToggle {
        emitted := emitted + [Toggled(nextOpen)];
      }
      if !nextOpen && hasOnClose {
        emitted := emitted + [Closed];
      }
    }

    /** `handleClose`: always ends closed and always reports, even when it was already closed. */
    method HandleClose()
      modifies this`isOpen, this`emitted
      ensures !isOpen
      ensures emitted == old(emitted) + CloseEmissions()
    {
      isOpen := false;
      if hasOnToggle {
        emitted := emitted + [Toggled(false)];
      }
      if hasOnClose {
        emitted := emitted + [Closed];
      }
    }

    /** A mousedown in the document closes the panel when it is open and the target is outside. */
    method HandleDocumentMouseDown(outside: bool)
      modifies this`isOpen, this`emitted
      ensures old(isOpen) && outside ==> !isOpen && emitted == old(emitted) + CloseEmissions()
      ensures !(old(isOpen) && outside) ==> unchanged(this)
    {
      if isOpen && outside {
        HandleClose();
      }
    }

    /** A key press in the document closes the panel when it is open and the key is Escape. */
    method HandleDocumentKeyDown(key: Key)
      modifies this`isOpen, this`emitted
      ensures old(isOpen) && key == Escape ==> !isOpen && emitted == old(emitted) + CloseEmissions()
      ensures !(old(isOpen) && key == Escape) ==> unchanged(this)
    {
      if isOpen && key == Escape {
        HandleClose();
      }
    }
  }

  /** `position.replace(' ', '-')`. */
  function PositionModifier(position: string): string {
    if position == [] then []
    else if position[0] == ' ' then "-" + position[1..]
    else [position[0]] + PositionModifier(position[1..])
  }

  /** Only the first space becomes a hyphen; everything before and after it is kept, and without a space nothing changes. */
  lemma {:induction false} PositionModifierSpec(position: string)
    ensures |PositionModifier(position)| == |position|
    ensures ' ' !in position ==> PositionModifier(position) == position
    ensures forall i :: 0 <= i < |position| && position[i] == ' ' && ' ' !in position[..i] ==>
      PositionModifier(position) == position[..i] + "-" + position[i + 1..]
  {
    if position == [] {
    } else if position[0] == ' ' {
      forall i | 0 < i < |position| ensures ' ' in position[..i] {
        assert position[..i][0] == ' ';
      }
    } else {
      PositionModifierSpec(position[1..]);
      forall i | 0 < i <= |position| ensures position[..i] == [position[0]] + position[1..][..i - 1] {
      }
    }
  }

  /** The first space, at `i`, becomes a hyphen. */
  lemma PositionModifierAt(position: string, i: nat)
    requires i < |position| && position[i] == ' ' && ' ' !in position[..i]
    ensures PositionModifier(position) == position[..i] + "-" + position[i + 1..]
  {
    PositionModifierSpec(position);
  }

  /** The documented default position: its one space becomes a hyphen. */
  lemma PositionModifierExample(p: string)
    requires p == "bottom left"
    ensures PositionModifier(p) == "bottom-left"
  {
    assert p[..6] == "bottom" && p[7..] == "left";
    PositionModifierAt(p, 6);
  }

  /** Only the first of two spaces is replaced. */
  lemma PositionModifierSecondSpace(q: string)
    requires q == "top  right"
    ensures PositionModifier(q) == "top- right"
  {
    assert q[..3] == "top" && q[4..] == " right";
    PositionModifierAt(q, 3);
  }

  /** `parts.filter(Boolean).join(' ')`: the non-empty class names, separated by single spaces. */
  function ClassNames(parts: seq<string>): (r: string)
    ensures (forall k :: 0 <= k < |parts| ==> parts[k] == "") <==> r == ""
  {
    if parts == [] then ""
    else
      var rest := ClassNames(parts[1..]);
      if parts[0] == "" then
        assert forall k :: 1 <= k < |parts| ==> parts[k] == parts[1..][k - 1];
        rest
      else if rest == "" then parts[0]
      else parts[0] + " " + rest
  }

  /** The wrapper's class list: `dropdown`, followed by `className` when it is not empty. */
  function WrapperClass(className: string): (r: string)
    ensures |r| >= 8 && r[..8] == "dropdown"
    ensures className == "" <==> r == "dropdown"
    ensures className != "" ==> r[8..] == " " + className
  {
    var parts := ["dropdown", className];
    assert parts[1..] == [className];
    assert [className][1..] == [];
    assert ClassNames([className]) == className;
    var r := ClassNames(parts);
    assert r == "dropdown" + (if className == "" then "" else " " + className);
    r
  }

  /** The panel's class list: the base class, the position modifier, and `contentClassName` when it is not empty. */
  function ContentClass(position: string, contentClassName: string): string {
    ClassNames(["dropdown__content", "dropdown__content--" + PositionModifier(position), contentClassName])
  }

  /** A non-empty first part is followed by a space only when some later part is non-empty. */
  lemma ClassNamesCons(x: string, rest: seq<string>)
    requires x != ""
    ensures ClassNames([x] + rest) == x + (if ClassNames(rest) == "" then "" else " " + ClassNames(rest))
  {
    assert ([x] + rest)[1..] == rest;
  }

  lemma ContentClassSpec(position: string, contentClassName: string)
    ensures ContentClass(position, contentClassName)
         == "dropdown__content" + " " + ("dropdown__content--" + PositionModifier(position))
            + (if contentClassName == "" then "" else " " + contentClassName)
  {
    var modifier := "dropdown__content--" + PositionModifier(position);
    assert modifier != "";
    ClassNamesCons(modifier, [contentClassName]);
    assert ClassNames([contentClassName]) == contentClassName by {
      assert [contentClassName][1..] == [];
    }
    assert ["dropdown__content", modifier, contentClassName] == ["dropdown__content"] + [modifier, contentClassName];
    assert [modifier, contentClassName] == [modifier] + [contentClassName];
    ClassNamesCons("dropdown__content", [modifier, contentClassName]);
  }
}
