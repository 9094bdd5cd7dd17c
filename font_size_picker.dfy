/**
 * FontSizePicker: preset buttons, a reset button and a custom input. Every
 * handler computes what it hands to `onChange`; none keeps state. Sizes are
 * integers here, and `numericValue` (the current value after `parseFloat`) is
 * `None` when it is undefined or not a number.
 */
module FontSizePicker {
  import opened Wrappers

  datatype Preset = Preset(name: string, slug: string, size: int)

  /** One `onChange` call; its argument is `None` for `undefined`. */
  datatype Emission = Changed(size: Option<int>)

  const DefaultSizes: seq<Preset> := [
    Preset("Small", "small", 13),
    Preset("Normal", "normal", 16),
    Preset("Medium", "medium", 20),
    Preset("Large", "large", 24),
    Preset("X-Large", "x-large", 32)
  ]

  /** `fontSizes.length ? fontSizes : [...]`: the given presets, or the five defaults when none are given. */
  function Presets(fontSizes: seq<Preset>): (r: seq<Preset>)
    ensures r != []
    ensures fontSizes != [] ==> r == fontSizes
    ensures fontSizes == [] ==> (|r| == 5 && r[0].size == 13 && r[1].size == 16 && r[2].size == 20
                                 && r[3].size == 24 && r[4].size == 32)
  {
    if |fontSizes| > 0 then fontSizes else DefaultSizes
  }

  /** `Math.min(...sizes)`: a size of one of the presets, and no preset is smaller. */
  function MinSize(presets: seq<Preset>): (r: int)
    requires presets != []
    ensures exists k :: 0 <= k < |presets| && presets[k].size == r
    ensures forall k :: 0 <= k < |presets| ==> r <= presets[k].size
  {
    if |presets| == 1 then presets[0].size
    else
      var rest := MinSize(presets[1..]);
      assert forall k :: 1 <= k < |presets| ==> presets[k] == presets[1..][k - 1];
      if presets[0].size <= rest then presets[0].size else rest
  }

  /** `Math.max(...sizes)`: a size of one of the presets, and no preset is larger. */
  function MaxSize(presets: seq<Preset>): (r: int)
    requires presets != []
    ensures exists k :: 0 <= k < |presets| && presets[k].size == r
    ensures forall k :: 0 <= k < |presets| ==> presets[k].size <= r
  {
    if |presets| == 1 then presets[0].size
    else
      var rest := MaxSize(presets[1..]);
      assert forall k :: 1 <= k < |presets| ==> presets[k] == presets[1..][k - 1];
      if presets[0].size >= rest then presets[0].size else rest
  }

  /** Without presets given, the range runs from 13 to 32. */
  lemma DefaultRange()
    ensures MinSize(Presets([])) == 13 && MaxSize(Presets([])) == 32
  {
    var p := Presets([]);
    assert p[0].size == 13 && p[4].size == 32;
  }

  /** A preset button is marked active exactly when its size is the current numeric value. */
  predicate IsActive(preset: Preset, numericValue: Option<int>): (r: bool)
    ensures r ==> numericValue.Some?
    ensures r <==> HandlePresetClick(preset.size, numericValue, true) == [Changed(None)]
  {
    numericValue == Some(preset.size)
  }

  /** `onChange?.(x)`: the call made, if `onChange` is given. */
  function Call(hasOnChange: bool, x: Option<int>): seq<Emission> {
    if hasOnChange then [Changed(x)] else []
  }

  /** `handlePresetClick`: clicking the active preset clears the value; any other preset sets its size. */
  function HandlePresetClick(size: int, numericValue: Option<int>, hasOnChange: bool): (r: seq<Emission>)
    ensures |r| <= 1 && (r != [] <==> hasOnChange)
    ensures r != [] ==> (r[0].size == None <==> numericValue == Some(size))
    ensures r != [] && r[0].size.Some? ==> r[0].size.value == size
  {
    Call(hasOnChange, if numericValue == Some(size) then None else Some(size))
  }

  /** Clicking a preset twice, with the parent feeding each value back, returns to where it started when it began active. */
  lemma PresetToggles(preset: Preset)
    ensures HandlePresetClick(preset.size, Some(preset.size), true) == [Changed(None)]
    ensures HandlePresetClick(preset.size, None, true) == [Changed(Some(preset.size))]
    ensures IsActive(preset, Some(preset.size)) && !IsActive(preset, None)
  {
  }

  /** `handleReset`: always clears the value. */
  function HandleReset(hasOnChange: bool): (r: seq<Emission>)
    ensures r == [] || r == [Changed(None)]
    ensures r != [] <==> hasOnChange
  {
    Call(hasOnChange, None)
  }

  /** `handleCustomChange`: the parsed number, or `undefined` when the text does not parse; `parsed` is that parse. */
  function HandleCustomChange(parsed: Option<int>, hasOnChange: bool): (r: seq<Emission>)
    ensures r != [] <==> hasOnChange
    ensures r != [] ==> r == [Changed(parsed)]
  {
    Call(hasOnChange, parsed)
  }
}
