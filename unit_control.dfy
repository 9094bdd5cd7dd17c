/**
 * UnitControl: a number input paired with a unit select, over one composite
 * string such as "16px". The value is split by `^([\d.]*)(.*)$`, the unit is
 * resolved against the `units` prop, and each handler hands `onChange` the
 * recombined string. Nothing here keeps state.
 */
module UnitControl {
  import opened Wrappers
  import opened Text

  /** `[\d.]*` matched the whole string. */
  predicate AllNum(s: string) {
    AllIn(s, DigitOrDot)
  }

  /** `.` matches every character except a line terminator. */
  predicate NoLineTerminator(s: string) {
    forall k :: 0 <= k < |s| ==> !IsLineTerminator(s[k])
  }

  /** The two groups of a successful match. */
  datatype Groups = Groups(number: string, rest: string)

  /** `String(val).match(/^([\d.]*)(.*)$/)`: the match fails exactly when the value holds a line terminator. */
  function MatchValue(s: string): (r: Option<Groups>)
    ensures r.Some? ==> s == r.value.number + r.value.rest && AllNum(r.value.number)
                        && NoLineTerminator(r.value.rest)
                        && (r.value.rest == [] || !InClass(r.value.rest[0], DigitOrDot))
    ensures r.None? <==> !NoLineTerminator(s)
  {
    var n := Span(s, DigitOrDot);
    assert s == s[..n] + s[n..];
    if NoLineTerminator(s[n..]) then
      assert forall k :: 0 <= k < n ==> s[k] == s[..n][k];
      assert forall k :: n <= k < |s| ==> s[k] == s[n..][k - n];
      Some(Groups(s[..n], s[n..]))
    else
      None
  }

  /** `units[0] || 'px'`. */
  function FirstUnit(units: seq<string>): string {
    if units != [] && units[0] != "" then units[0] else "px"
  }

  datatype Parsed = Parsed(number: string, unit: string)

  /**
   * The inner `parseValue`. The number is the digits-and-dots prefix of the
   * value; the unit is the rest when `units` lists it, else the first unit.
   */
  function ParseValue(value: string, units: seq<string>): (r: Parsed)
    ensures AllNum(r.number) && |r.number| <= |value| && r.number == value[..|r.number|]
    ensures r.unit in units || r.unit == FirstUnit(units)
    ensures units != [] && units[0] != "" ==> r.unit in units
    ensures value == "" ==> r == Parsed("", FirstUnit(units))
    ensures value != "" && MatchValue(value).None? ==> r == Parsed("", FirstUnit(units))
    ensures value != "" && MatchValue(value).Some? ==> r.number == MatchValue(value).value.number
    ensures value != "" && MatchValue(value).Some? ==>
      var rest := MatchValue(value).value.rest;
      r.unit == if rest != "" && rest in units then rest else FirstUnit(units)
  {
    if value == "" then Parsed("", FirstUnit(units))
    else match MatchValue(value)
      case None => Parsed("", FirstUnit(units))
      case Some(g) =>
        var parsedUnit := if g.rest != "" then g.rest else FirstUnit(units);
        Parsed(g.number, if parsedUnit in units then parsedUnit else FirstUnit(units))
  }

  /** The number is the longest digits-and-dots prefix of a value without line terminators. */
  lemma LongestNumber(value: string, units: seq<string>)
    requires value != "" && NoLineTerminator(value)
    ensures ParseValue(value, units).number == value[..Span(value, DigitOrDot)]
  {
    var g := MatchValue(value).value;
    SpanOf(g.number, g.rest, DigitOrDot);
    assert value[..|g.number|] == g.number;
  }

  /** A unit that is missing or not listed falls back to `units[0] || 'px'`. */
  lemma UnlistedUnitFallsBack(value: string, units: seq<string>)
    requires value != "" && MatchValue(value).Some? && MatchValue(value).value.rest !in units
    ensures ParseValue(value, units).unit == FirstUnit(units)
  {
  }

  /** A leading `-` is not a digit or a dot, so a negative value parses to an empty number. */
  lemma NegativeHasNoNumber(value: string, units: seq<string>)
    requires value != "" && value[0] == '-'
    ensures ParseValue(value, units).number == ""
  {
  }

  /** A unit that is listed, non-empty, free of line terminators and not starting with a digit or a dot. */
  predicate Separable(u: string, units: seq<string>) {
    u in units && u != "" && !InClass(u[0], DigitOrDot) && NoLineTerminator(u)
  }

  /** Parsing a number written next to a separable unit gives both back. */
  lemma ParseRoundTrip(n: string, u: string, units: seq<string>)
    requires AllNum(n) && Separable(u, units)
    ensures ParseValue(n + u, units) == Parsed(n, u)
  {
    SpanOf(n, u, DigitOrDot);
    var s := n + u;
    assert s[..|n|] == n && s[|n|..] == u;
  }

  /** `handleNumberChange`: the typed number followed by the current unit, unless disabled or without `onChange`. */
  function HandleNumberChange(value: string, units: seq<string>, text: string, disabled: bool, hasOnChange: bool): (r: Option<string>)
    ensures r.Some? <==> !disabled && hasOnChange
    ensures r.Some? ==> |r.value| >= |text| && r.value[..|text|] == text
    ensures r.Some? ==> r.value[|text|..] == ParseValue(value, units).unit
  {
    if disabled || !hasOnChange then None
    else Some(text + ParseValue(value, units).unit)
  }

  /** `handleUnitChange`: the current number followed by the chosen unit, unless disabled or without `onChange`. */
  function HandleUnitChange(value: string, units: seq<string>, newUnit: string, disabled: bool, hasOnChange: bool): (r: Option<string>)
    ensures r.Some? <==> !disabled && hasOnChange
    ensures r.Some? ==> |r.value| >= |newUnit| && r.value[|r.value| - |newUnit|..] == newUnit
    ensures r.Some? ==> r.value[..|r.value| - |newUnit|] == ParseValue(value, units).number
  {
    if disabled || !hasOnChange then None
    else Some(ParseValue(value, units).number + newUnit)
  }

  /** Typing a number keeps the unit: the emitted string parses back to the typed number and the current unit. */
  lemma NumberChangeKeepsUnit(value: string, units: seq<string>, text: string)
    requires AllNum(text) && Separable(ParseValue(value, units).unit, units)
    ensures HandleNumberChange(value, units, text, false, true).Some?
    ensures ParseValue(HandleNumberChange(value, units, text, false, true).value, units)
         == Parsed(text, ParseValue(value, units).unit)
  {
    ParseRoundTrip(text, ParseValue(value, units).unit, units);
  }

  /** Choosing a unit keeps the number: the emitted string parses back to the current number and the chosen unit. */
  lemma UnitChangeKeepsNumber(value: string, units: seq<string>, newUnit: string)
    requires Separable(newUnit, units)
    ensures HandleUnitChange(value, units, newUnit, false, true).Some?
    ensures ParseValue(HandleUnitChange(value, units, newUnit, false, true).value, units)
         == Parsed(ParseValue(value, units).number, newUnit)
  {
    ParseRoundTrip(ParseValue(value, units).number, newUnit, units);
  }

  /** With `units` whose first entry is empty, the resolved unit can lie outside `units`. */
  lemma EmptyFirstUnit()
    ensures ParseValue("", [""]).unit == "px" && "px" !in [""]
  {
  }
}
