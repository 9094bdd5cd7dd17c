/**
 * BoxControl: four CSS side values (`top`, `right`, `bottom`, `left`) edited
 * either together (linked) or one by one, with one shared unit. The `values`
 * prop is a plain object of CSS strings; the component's own state is the
 * unit and whether the sides are linked. Every `onChange` call is recorded,
 * with the object it receives, in the ghost trace `emitted`.
 */
module BoxControl {
  import opened Wrappers
  import opened Text
  import opened JsObject

  /** A value stored in the `values` object: `null`, a number or a string. A missing key is `undefined`. */
  datatype CssValue = Null | Num(n: int) | Str(s: string)

  datatype Parsed = Parsed(num: string, unit: string)

  /** `[a-z%]`. */
  predicate IsUnitChar(c: char) {
    'a' <= c <= 'z' || c == '%'
  }

  predicate AllUnit(s: string) {
    forall k :: 0 <= k < |s| ==> IsUnitChar(s[k])
  }

  /** `-?[\d.]*` matched the whole string. */
  predicate IsNumber(n: string) {
    AllIn(n, DigitOrDot) || (n != [] && n[0] == '-' && AllIn(n[1..], DigitOrDot))
  }

  /** `/^(-?[\d.]*)([a-z%]*)$/`: the two groups, when the whole string splits into a number and unit letters. */
  function SplitValue(s: string): (r: Option<Parsed>)
    ensures r.Some? ==> s == r.value.num + r.value.unit && IsNumber(r.value.num) && AllUnit(r.value.unit)
  {
    var sign := if s != [] && s[0] == '-' then 1 else 0;
    var n := sign + Span(s[sign..], DigitOrDot);
    if AllUnit(s[n..]) then
      assert s == s[..n] + s[n..];
      assert sign == 1 ==> s[..n][1..] == s[1..][..n - 1];
      assert sign == 0 ==> s[..n] == s[sign..][..n];
      Some(Parsed(s[..n], s[n..]))
    else None
  }

  /** A number followed by unit letters splits exactly there: unit letters are never digits, dots or `-`. */
  lemma SplitValueOf(n: string, u: string)
    requires IsNumber(n) && AllUnit(u)
    ensures SplitValue(n + u) == Some(Parsed(n, u))
  {
    var s := n + u;
    if n != [] && n[0] == '-' {
      assert s[0] == '-';
      assert s[1..] == n[1..] + u;
      SpanOf(n[1..], u, DigitOrDot);
    } else {
      assert AllIn(n, DigitOrDot);
      assert n == [] ==> s == u;
      SpanOf(n, u, DigitOrDot);
    }
    assert s[..|n|] == n && s[|n|..] == u;
  }

  /** The match fails exactly when no split of the string into a number and unit letters exists. */
  lemma SplitValueNone(s: string)
    requires SplitValue(s).None?
    ensures forall i :: 0 <= i <= |s| ==> !(IsNumber(s[..i]) && AllUnit(s[i..]))
  {
    forall i | 0 <= i <= |s|
      ensures !(IsNumber(s[..i]) && AllUnit(s[i..]))
    {
      if IsNumber(s[..i]) && AllUnit(s[i..]) {
        assert s[..i] + s[i..] == s;
        SplitValueOf(s[..i], s[i..]);
      }
    }
  }

  /** A non-empty string that no split into a number and unit letters fits parses to no number and `px`. */
  lemma ParseUnsplittable(s: string)
    requires s != ""
    requires forall i :: 0 <= i <= |s| ==> !(IsNumber(s[..i]) && AllUnit(s[i..]))
    ensures ParseValue(Some(Str(s))) == Parsed("", "px")
  {
    if SplitValue(s).Some? {
      SplitValueAt(s);
    }
  }

  /** A successful match is a split of the string at the end of the number group. */
  lemma SplitValueAt(s: string)
    requires SplitValue(s).Some?
    ensures var n := |SplitValue(s).value.num|; n <= |s| && IsNumber(s[..n]) && AllUnit(s[n..])
  {
    var p := SplitValue(s).value;
    assert s[..|p.num|] == p.num && s[|p.num|..] == p.unit;
  }

  /** `!cssValue && cssValue !== 0`: undefined, `null` and the empty string. */
  predicate IsBlank(v: Option<CssValue>) {
    v.None? || v == Some(Null) || v == Some(Str(""))
  }

  /** `String(cssValue)` of a value that is not blank. */
  function AsText(v: CssValue): string {
    match v
    case Null => "null"
    case Num(n) => IntToDecimal(n)
    case Str(s) => s
  }

  /**
   * `parseValue`: blank values and strings that do not match give no number
   * and `px`; otherwise the two groups, with `px` for an empty unit. The
   * number always has the shape `-?[\d.]*` and the unit is never empty.
   */
  function ParseValue(v: Option<CssValue>): (r: Parsed)
    ensures IsNumber(r.num) && r.unit != ""
    ensures IsBlank(v) ==> r == Parsed("", "px")
  {
    if IsBlank(v) then Parsed("", "px")
    else match SplitValue(AsText(v.value))
      case None => Parsed("", "px")
      case Some(p) => Parsed(p.num, if p.unit == "" then "px" else p.unit)
  }

  /** A number, zero included, parses to its decimal text with the unit `px`. */
  lemma ParseNumber(n: int)
    ensures ParseValue(Some(Num(n))) == Parsed(IntToDecimal(n), "px")
  {
    var d := IntToDecimal(n);
    if n < 0 {
      assert d[1..] == NatToDecimal(-n);
    }
    assert AllIn(NatToDecimal(if n < 0 then -n else n), DigitOrDot);
    assert d + "" == d;
    SplitValueOf(d, "");
  }

  /** For a non-empty `-?[\d.]*` number and non-empty unit letters, parsing their concatenation gives both back. */
  lemma ParseRoundTrip(n: string, u: string)
    requires IsNumber(n) && n != "" && AllUnit(u) && u != ""
    ensures ParseValue(Some(Str(n + u))) == Parsed(n, u)
  {
    SplitValueOf(n, u);
  }

  /** `buildValue`: the empty number gives the empty string; any other is followed by the unit. */
  function BuildValue(num: string, unit: string): (r: string)
    ensures num == "" <==> r == ""
    ensures num != "" ==> |r| == |num| + |unit| && r[..|num|] == num && r[|num|..] == unit
  {
    if num == "" then "" else num + unit
  }

  /** What `buildValue` writes, `parseValue` reads back, for a valid unit. */
  lemma BuildParse(num: string, unit: string)
    requires IsNumber(num) && AllUnit(unit) && unit != ""
    ensures ParseValue(Some(Str(BuildValue(num, unit)))) == if num == "" then Parsed("", "px") else Parsed(num, unit)
  {
    if num != "" {
      ParseRoundTrip(num, unit);
    }
  }

  const AllSides: seq<string> := ["top", "right", "bottom", "left"]

  /** The values JavaScript treats as false here: `null`, `''` and `0`. */
  predicate Falsy(v: CssValue) {
    v == Null || v == Str("") || v == Num(0)
  }

  /** `Object.values(values).find((v) => v)`: the first value that is not falsy. */
  function FirstTruthy(values: Object<CssValue>): (r: Option<CssValue>)
    ensures r.Some? ==> !IsBlank(r) && r.value != Num(0)
    ensures r.None? <==> forall i :: 0 <= i < |values| ==> Falsy(values[i].1)
    ensures r.Some? ==> exists i :: 0 <= i < |values| && values[i].1 == r.value
                                    && forall j :: 0 <= j < i ==> Falsy(values[j].1)
  {
    if values == [] then None
    else
      var v := values[0].1;
      if Falsy(v) then
        var r := FirstTruthy(values[1..]);
        assert forall i :: 1 <= i < |values| ==> values[1..][i - 1] == values[i];
        if r.Some? then
          var k :| 0 <= k < |values| - 1 && values[1..][k].1 == r.value
                   && forall j :: 0 <= j < k ==> Falsy(values[1..][j].1);
          assert values[k + 1].1 == r.value;
          r
        else r
      else
        assert values[0].1 == v;
        Some(v)
  }

  /** Every key in `keys` holds `Some(v)`; every other key keeps its value in `base`. */
  ghost predicate SetsAll(r: Object<CssValue>, base: Object<CssValue>, keys: seq<string>, v: CssValue) {
    forall k :: Get(r, k) == if k in keys then Some(v) else Get(base, k)
  }

  /** What `handleUnitChange` writes for one side: its number with the new unit, or `''` when it has none. */
  function Rewritten(v: Option<CssValue>, newUnit: string): CssValue {
    Str(BuildValue(ParseValue(v).num, newUnit))
  }

  /** Every key in `keys` holds its old number with `newUnit`; every other key keeps its value. */
  ghost predicate UnitRewritten(r: Object<CssValue>, base: Object<CssValue>, keys: seq<string>, newUnit: string) {
    forall k :: Get(r, k) == if k in keys then Some(Rewritten(Get(base, k), newUnit)) else Get(base, k)
  }

  /** After a change that sets `keys` to the built value is fed back, each of those sides shows the typed number. */
  lemma ChangeShows(r: Object<CssValue>, values: Object<CssValue>, keys: seq<string>, num: string, unit: string, side: string)
    requires SetsAll(r, values, keys, Str(BuildValue(num, unit))) && side in keys
    requires IsNumber(num) && AllUnit(unit) && unit != ""
    ensures ParseValue(Get(r, side)).num == num
  {
    BuildParse(num, unit);
  }

  /** After a unit change, every active side keeps its number, now with the new unit when it has one. */
  lemma UnitChangeKeepsNumbers(r: Object<CssValue>, values: Object<CssValue>, active: seq<string>, newUnit: string, side: string)
    requires UnitRewritten(r, values, active, newUnit) && side in active
    requires AllUnit(newUnit) && newUnit != ""
    ensures ParseValue(Get(r, side)).num == ParseValue(Get(values, side)).num
    ensures ParseValue(Get(values, side)).num != "" ==> ParseValue(Get(r, side)).unit == newUnit
  {
    BuildParse(ParseValue(Get(values, side)).num, newUnit);
  }

  /** The objects the split-axis input emits as written: one per side, each spread from the same `values`. */
  function AxisEmissions(values: Object<CssValue>, keys: seq<string>, v: CssValue): (r: seq<Object<CssValue>>)
    ensures |r| == |keys|
  {
    if keys == [] then [] else [Assign(values, keys[0], v)] + AxisEmissions(values, keys[1..], v)
  }

  /** The emission for the `i`-th side is `values` with that side set. */
  lemma {:induction false} AxisEmissionsAt(values: Object<CssValue>, keys: seq<string>, v: CssValue, i: nat)
    requires i < |keys|
    ensures AxisEmissions(values, keys, v)[i] == Assign(values, keys[i], v)
  {
    if i > 0 {
      AxisEmissionsAt(values, keys[1..], v, i - 1);
    }
  }

  /** The emissions from the `i`-th side on are that side's, then those from the next side on. */
  lemma AxisEmissionsFrom(values: Object<CssValue>, keys: seq<string>, v: CssValue, i: nat)
    requires i < |keys|
    ensures AxisEmissions(values, keys[i..], v) == [Assign(values, keys[i], v)] + AxisEmissions(values, keys[i + 1..], v)
  {
    assert keys[i..][1..] == keys[i + 1..];
  }

  /** Moving one element across a concatenation. */
  lemma AppendShift<T>(e: seq<T>, x: T, rest: seq<T>)
    ensures (e + [x]) + rest == e + ([x] + rest)
  {
  }

  /**
   * With `splitOnAxis`, typing in the Vertical input emits `{ ...values, top }`
   * and then `{ ...values, bottom }`. The last object, which a parent storing
   * each `onChange` argument keeps, still holds the old top value.
   */
  lemma AxisInputKeepsFirstSide(values: Object<CssValue>, v: CssValue)
    requires Get(values, "top") != Some(v)
    ensures var sent := AxisEmissions(values, ["top", "bottom"], v);
      |sent| == 2 && Get(sent[1], "bottom") == Some(v) && Get(sent[1], "top") == Get(values, "top")
  {
  }

  /** One object with every side of the axis set, as the split-axis input evidently means to emit. */
  function AxisUpdate(values: Object<CssValue>, keys: seq<string>, v: CssValue): (r: Object<CssValue>)
    ensures SetsAll(r, values, keys, v)
    ensures DistinctKeys(values) ==> DistinctKeys(r)
    decreases |keys|
  {
    if keys == [] then values
    else
      var r := AxisUpdate(Assign(values, keys[0], v), keys[1..], v);
      assert forall k :: k in keys <==> k == keys[0] || k in keys[1..];
      r
  }

  /** `candidates.find((s) => within.includes(s))`, as the index of the candidate found. */
  function FirstListed(candidates: seq<string>, within: seq<string>): (r: Option<nat>)
    ensures r.Some? ==> r.value < |candidates| && candidates[r.value] in within
    ensures r.Some? ==> forall k :: 0 <= k < r.value ==> candidates[k] !in within
    ensures r.None? <==> forall k :: 0 <= k < |candidates| ==> candidates[k] !in within
  {
    if candidates == [] then None
    else if candidates[0] in within then Some(0)
    else match FirstListed(candidates[1..], within)
      case Some(k) => Some(k + 1)
      case None => None
  }

  /** With the corrected update fed back, both sides of the axis show the typed number. */
  lemma AxisUpdateShowsBoth(values: Object<CssValue>, num: string, unit: string)
    requires IsNumber(num) && AllUnit(unit) && unit != ""
    ensures var next := AxisUpdate(values, ["top", "bottom"], Str(BuildValue(num, unit)));
      ParseValue(Get(next, "top")).num == num && ParseValue(Get(next, "bottom")).num == num
  {
    var next := AxisUpdate(values, ["top", "bottom"], Str(BuildValue(num, unit)));
    ChangeShows(next, values, ["top", "bottom"], num, unit, "top");
    ChangeShows(next, values, ["top", "bottom"], num, unit, "bottom");
  }

  class Box {
    const values: Object<CssValue>
    const hasOnChange: bool
    const sides: Option<seq<string>>
    const splitOnAxis: bool

    var unit: string
    var isLinked: bool
    /** Every `onChange` argument, oldest first. */
    ghost var emitted: seq<Object<CssValue>>

    /** `sides || ALL_SIDES`. */
    function ActiveSides(): seq<string> {
      sides.GetOr(AllSides)
    }

    /** The unit starts as that of the first non-falsy value (`px` when there is none), and the sides start linked. */
    constructor (values: Object<CssValue>, hasOnChange: bool, sides: Option<seq<string>>, splitOnAxis: bool)
      ensures this.values == values && this.hasOnChange == hasOnChange && this.sides == sides
      ensures this.splitOnAxis == splitOnAxis
      ensures unit == ParseValue(FirstTruthy(values)).unit && unit != ""
      ensures isLinked && emitted == []
    {
      this.values := values;
      this.hasOnChange := hasOnChange;
      this.sides := sides;
      this.splitOnAxis := splitOnAxis;
      var derivedUnit := ParseValue(FirstTruthy(values)).unit;
      unit := if derivedUnit != "" then derivedUnit else "px";
      isLinked := true;
      emitted := [];
    }

    /** The link button flips linked mode. */
    method ToggleLinked()
      modifies this`isLinked
      ensures isLinked == !old(isLinked)
    {
      isLinked := !isLinked;
    }

    /** `linkedNum`: the number of the first active side while linked; `activeSides[0]` of an empty list reads the key "undefined". */
    function LinkedNum(): (r: string)
      reads this
      ensures IsNumber(r)
      ensures !isLinked ==> r == ""
    {
      if isLinked then
        ParseValue(Get(values, if ActiveSides() != [] then ActiveSides()[0] else "undefined")).num
      else ""
    }

    /** The sides each unlinked input edits: top-bottom and right-left when split on axis, else one input per active side. */
    function DisplaySides(): (r: seq<seq<string>>)
      ensures splitOnAxis ==> r == [["top", "bottom"], ["right", "left"]]
      ensures !splitOnAxis ==> |r| == |ActiveSides()| && forall i :: 0 <= i < |r| ==> r[i] == [ActiveSides()[i]]
    {
      if splitOnAxis then [["top", "bottom"], ["right", "left"]]
      else seq(|ActiveSides()|, i requires 0 <= i < |ActiveSides()| => [ActiveSides()[i]])
    }

    /**
     * The side whose number an unlinked input shows: on an axis, the first
     * active side that the pair lists, unless that side is empty or there is
     * none, when it is the pair's first side.
     */
    function ShownSide(item: seq<string>): (r: string)
      requires item != []
      ensures r == item[0] || (splitOnAxis && r in item && r in ActiveSides())
      ensures !splitOnAxis ==> r == item[0]
      ensures splitOnAxis ==> forall i ::
        (0 <= i < |ActiveSides()| && ActiveSides()[i] in item && forall j :: 0 <= j < i ==> ActiveSides()[j] !in item) ==>
        r == if ActiveSides()[i] != "" then ActiveSides()[i] else item[0]
      ensures splitOnAxis && (forall s :: s in ActiveSides() ==> s !in item) ==> r == item[0]
    {
      if splitOnAxis then
        match FirstListed(ActiveSides(), item)
        case Some(i) => if ActiveSides()[i] != "" then ActiveSides()[i] else item[0]
        case None => item[0]
      else item[0]
    }

    /** `{ ...values, ...updated }` after `updated[s] = v` for each active side, filled one side at a time. */
    method SetActiveSides(v: CssValue) returns (r: Object<CssValue>)
      ensures SetsAll(r, values, ActiveSides(), v)
      ensures IsPrefix(Keys(values), Keys(r))
    {
      var active := ActiveSides();
      var updated: Object<CssValue> := [];
      var i := 0;
      while i < |active|
        invariant 0 <= i <= |active|
        invariant DistinctKeys(updated)
        invariant forall k :: Get(updated, k) == if k in active[..i] then Some(v) else None
      {
        assert active[..i + 1] == active[..i] + [active[i]];
        updated := Assign(updated, active[i], v);
        i := i + 1;
      }
      assert active[..i] == active;
      r := Spread(values, updated);
    }

    /** `handleChange`: nothing without `onChange`; linked, every active side gets the built value; unlinked, only `side`. */
    method HandleChange(side: string, num: string)
      modifies this`emitted
      ensures !hasOnChange ==> emitted == old(emitted)
      ensures hasOnChange ==> |emitted| == |old(emitted)| + 1 && emitted[..|old(emitted)|] == old(emitted)
      ensures hasOnChange && isLinked ==> SetsAll(emitted[|emitted| - 1], values, ActiveSides(), Str(BuildValue(num, unit)))
      ensures hasOnChange && !isLinked ==> emitted[|emitted| - 1] == Assign(values, side, Str(BuildValue(num, unit)))
      ensures hasOnChange ==> IsPrefix(Keys(values), Keys(emitted[|emitted| - 1]))
    {
      if !hasOnChange {
        return;
      }
      if isLinked {
        var next := SetActiveSides(Str(BuildValue(num, unit)));
        emitted := emitted + [next];
      } else {
        ChangeOneSide(side, num);
        assert Keys(values) + [side] == Keys(emitted[|emitted| - 1]) ==> Keys(emitted[|emitted| - 1])[..|Keys(values)|] == Keys(values);
      }
    }

    /** The unlinked branch of `handleChange`: `{ ...values, [side]: buildValue(num) }`. */
    method ChangeOneSide(side: string, num: string)
      requires hasOnChange
      modifies this`emitted
      ensures emitted == old(emitted) + [Assign(values, side, Str(BuildValue(num, unit)))]
    {
      emitted := emitted + [Assign(values, side, Str(BuildValue(num, unit)))];
    }

    /** `handleUnitChange`: take the new unit, then re-emit every active side with its number and that unit. */
    method HandleUnitChange(newUnit: string)
      modifies this`unit, this`emitted
      ensures unit == newUnit
      ensures !hasOnChange ==> emitted == old(emitted)
      ensures hasOnChange ==> |emitted| == |old(emitted)| + 1 && emitted[..|old(emitted)|] == old(emitted)
      ensures hasOnChange ==> UnitRewritten(emitted[|emitted| - 1], values, ActiveSides(), newUnit)
      ensures hasOnChange ==> IsPrefix(Keys(values), Keys(emitted[|emitted| - 1]))
    {
      unit := newUnit;
      if !hasOnChange {
        return;
      }
      var active := ActiveSides();
      var updated: Object<CssValue> := [];
      var i := 0;
      while i < |active|
        invariant 0 <= i <= |active|
        invariant DistinctKeys(updated)
        invariant forall k :: Get(updated, k) == if k in active[..i] then Some(Rewritten(Get(values, k), newUnit)) else None
      {
        assert active[..i + 1] == active[..i] + [active[i]];
        var num := ParseValue(Get(values, active[i])).num;
        updated := Assign(updated, active[i], Str(if num != "" then num + newUnit else ""));
        i := i + 1;
      }
      assert active[..i] == active;
      emitted := emitted + [Spread(values, updated)];
    }

    /** An unlinked input: `handleChange` once for each side it edits, in order. */
    method HandleSideInput(itemSides: seq<string>, num: string)
      requires !isLinked
      modifies this`emitted
      ensures !hasOnChange ==> emitted == old(emitted)
      ensures hasOnChange ==> emitted == old(emitted) + AxisEmissions(values, itemSides, Str(BuildValue(num, unit)))
    {
      if !hasOnChange {
        return;
      }
      ghost var before := emitted;
      ghost var v := Str(BuildValue(num, unit));
      assert itemSides[0..] == itemSides;
      var i := 0;
      while i < |itemSides|
        invariant 0 <= i <= |itemSides|
        invariant v == Str(BuildValue(num, unit))
        invariant emitted + AxisEmissions(values, itemSides[i..], v) == before + AxisEmissions(values, itemSides, v)
      {
        ChangeSideAt(itemSides, i, num);
        i := i + 1;
      }
      assert itemSides[i..] == [];
      assert AxisEmissions(values, itemSides[i..], v) == [];
      assert emitted + [] == emitted;
    }

    /** One pass of the unlinked input's loop: the `i`-th side's emission moves from what is left to what is sent. */
    method ChangeSideAt(itemSides: seq<string>, i: nat, num: string)
      requires hasOnChange && i < |itemSides|
      modifies this`emitted
      ensures emitted + AxisEmissions(values, itemSides[i + 1..], Str(BuildValue(num, unit)))
           == old(emitted) + AxisEmissions(values, itemSides[i..], Str(BuildValue(num, unit)))
    {
      ghost var v := Str(BuildValue(num, unit));
      AxisEmissionsFrom(values, itemSides, v, i);
      ghost var e := emitted;
      ChangeOneSide(itemSides[i], num);
      AppendShift(e, Assign(values, itemSides[i], v), AxisEmissions(values, itemSides[i + 1..], v));
    }
  }

  /**
   * Linked inputs all show the first active side's number: once the values a
   * linked change emitted are fed back, that number is the one typed.
   */
  lemma LinkedNumAfterChange(b: Box, base: Object<CssValue>, num: string, unit: string)
    requires b.isLinked && b.ActiveSides() != []
    requires SetsAll(b.values, base, b.ActiveSides(), Str(BuildValue(num, unit)))
    requires IsNumber(num) && AllUnit(unit) && unit != ""
    ensures b.LinkedNum() == num
  {
    ChangeShows(b.values, base, b.ActiveSides(), num, unit, b.ActiveSides()[0]);
  }
}
