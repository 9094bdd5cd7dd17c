/**
 * FormTokenField: a multi-value token input with autocomplete suggestions.
 * The token list is the controlled `value` prop; the component's own state is
 * the input text, whether the suggestion list is open, and the highlighted
 * suggestion. Every `onChange` call is recorded in the ghost trace `emitted`.
 */
module FormTokenField {
  import opened Wrappers
  import opened Text
  import opened Listbox

  predicate NoDuplicates(s: seq<string>) {
    forall i, j :: 0 <= i < j < |s| ==> s[i] != s[j]
  }

  /** `a` is `b` with some elements dropped, the rest in their original order. */
  predicate IsSubsequence(a: seq<string>, b: seq<string>) {
    a == [] || (b != [] && if a[0] == b[0] then IsSubsequence(a[1..], b[1..]) else IsSubsequence(a, b[1..]))
  }

  /** `isAtLimit`: a maximum is set and the list has reached it. */
  predicate AtLimit(value: seq<string>, maxLength: Option<int>): (r: bool)
    ensures maxLength.None? ==> !r
    ensures maxLength.Some? && maxLength.value <= 0 ==> r
    ensures r && value == [] ==> maxLength.value <= 0
  {
    maxLength.Some? && |value| >= maxLength.value
  }

  /**
   * The list `addToken(token)` passes to `onChange`, or None when it rejects
   * the token (blank, already present, or at the limit).
   */
  function AcceptToken(value: seq<string>, token: string, maxLength: Option<int>): (r: Option<seq<string>>)
    ensures r.Some? <==> !AllWhitespace(token) && Trim(token) !in value && !AtLimit(value, maxLength)
    ensures r.Some? ==> r.value == value + [Trim(token)]
    ensures r.Some? ==> Trim(token) != "" && IsTrimmed(Trim(token))
  {
    TrimEmptyIff(token);
    TrimIsTrimmed(token);
    var trimmed := Trim(token);
    if trimmed == "" || trimmed in value then None
    else if AtLimit(value, maxLength) then None
    else Some(value + [trimmed])
  }

  /** An accepted token keeps the list free of duplicates and within `maxLength`. */
  lemma AcceptKeepsInvariant(value: seq<string>, token: string, maxLength: Option<int>)
    requires NoDuplicates(value)
    requires maxLength.Some? ==> |value| <= maxLength.value
    ensures AcceptToken(value, token, maxLength).Some? ==>
      var next := AcceptToken(value, token, maxLength).value;
      NoDuplicates(next) && (maxLength.Some? ==> |next| <= maxLength.value)
  {
  }

  /** The list a parent holds after offering `tokens` one by one and storing every accepted `onChange` value. */
  function AddAll(value: seq<string>, tokens: seq<string>, maxLength: Option<int>): seq<string>
    decreases |tokens|
  {
    if tokens == [] then value
    else
      var next := AcceptToken(value, tokens[0], maxLength).GetOr(value);
      AddAll(next, tokens[1..], maxLength)
  }

  /** `r` is `value` with non-blank trimmed tokens appended, still without duplicates and within `maxLength`. */
  predicate GrowsFrom(value: seq<string>, r: seq<string>, maxLength: Option<int>) {
    NoDuplicates(r) && (maxLength.Some? ==> |r| <= maxLength.value)
    && |value| <= |r| && r[..|value|] == value
    && forall k :: |value| <= k < |r| ==> r[k] != "" && IsTrimmed(r[k])
  }

  lemma GrowsFromTransitive(a: seq<string>, b: seq<string>, c: seq<string>, maxLength: Option<int>)
    requires GrowsFrom(a, b, maxLength) && GrowsFrom(b, c, maxLength)
    ensures GrowsFrom(a, c, maxLength)
  {
    assert c[..|b|][..|a|] == c[..|a|];
    forall k | |a| <= k < |c| ensures c[k] != "" && IsTrimmed(c[k]) {
      if k < |b| {
        assert c[k] == c[..|b|][k];
      }
    }
  }

  /**
   * Repeated adds never create a duplicate, never exceed `maxLength`, keep the
   * earlier tokens in front, and only ever append non-blank trimmed tokens.
   */
  lemma {:induction false} AddAllKeepsInvariant(value: seq<string>, tokens: seq<string>, maxLength: Option<int>)
    requires NoDuplicates(value)
    requires maxLength.Some? ==> |value| <= maxLength.value
    ensures GrowsFrom(value, AddAll(value, tokens, maxLength), maxLength)
    decreases |tokens|
  {
    if tokens == [] {
      assert value[..|value|] == value;
    } else {
      var accepted := AcceptToken(value, tokens[0], maxLength);
      var next := accepted.GetOr(value);
      AcceptKeepsInvariant(value, tokens[0], maxLength);
      if accepted.Some? {
        assert next[..|value|] == value;
      } else {
        assert next[..|value|] == value;
      }
      assert GrowsFrom(value, next, maxLength);
      AddAllKeepsInvariant(next, tokens[1..], maxLength);
      GrowsFromTransitive(value, next, AddAll(next, tokens[1..], maxLength), maxLength);
    }
  }

  /** A suggestion is offered when it contains the input, ignoring ASCII case, and is not already a token. */
  predicate SuggestionMatches(s: string, inputValue: string, value: seq<string>) {
    Contains(Lower(s), Lower(inputValue)) && s !in value
  }

  /** `filteredSuggestions`: the matching suggestions, in their original order. */
  function FilteredSuggestions(suggestions: seq<string>, inputValue: string, value: seq<string>): (r: seq<string>)
    ensures forall x :: x in r <==> x in suggestions && SuggestionMatches(x, inputValue, value)
    ensures IsSubsequence(r, suggestions)
  {
    if suggestions == [] then []
    else
      var rest := FilteredSuggestions(suggestions[1..], inputValue, value);
      if SuggestionMatches(suggestions[0], inputValue, value) then
        [suggestions[0]] + rest
      else
        assert rest != [] ==> rest[0] != suggestions[0];
        rest
  }

  /** The filter keeps every copy of a matching suggestion and no copy of any other. */
  lemma {:induction false} FilteredCounts(suggestions: seq<string>, inputValue: string, value: seq<string>)
    ensures forall x :: multiset(FilteredSuggestions(suggestions, inputValue, value))[x]
                     == if SuggestionMatches(x, inputValue, value) then multiset(suggestions)[x] else 0
  {
    if suggestions != [] {
      FilteredCounts(suggestions[1..], inputValue, value);
      assert suggestions == [suggestions[0]] + suggestions[1..];
    }
  }

  /** With the suggestions Apple and Banana, "an" keeps Banana only, since "apple" does not contain "an"; "z" keeps nothing. */
  lemma FilterExamples()
    ensures FilteredSuggestions(["Apple", "Banana"], "an", []) == ["Banana"]
    ensures FilteredSuggestions(["Apple", "Banana"], "z", []) == []
  {
    LowerExamples();
    ContainsExamples();
  }

  lemma LowerExamples()
    ensures Lower("Apple") == "apple" && Lower("Banana") == "banana"
    ensures Lower("an") == "an" && Lower("z") == "z"
  {
  }

  lemma ContainsExamples()
    ensures Contains("banana", "an")
    ensures !Contains("apple", "an") && !Contains("apple", "z") && !Contains("banana", "z")
  {
    assert IsPrefix("an", "anana");
    MissingFirstChar("apple", "z");
    MissingFirstChar("banana", "z");
    assert "apple"[..2] != "an";
    assert "apple"[1..] == "pple";
    MissingFirstChar("pple", "an");
  }

  /** `value.filter((t) => t !== token)`. */
  function RemoveAll(value: seq<string>, token: string): (r: seq<string>)
    ensures forall t :: t in r <==> t in value && t != token
    ensures IsSubsequence(r, value)
    ensures token !in value ==> r == value
  {
    if value == [] then []
    else
      var rest := RemoveAll(value[1..], token);
      if value[0] != token then
        [value[0]] + rest
      else
        assert rest != [] ==> rest[0] != value[0];
        rest
  }

  /** Removal drops every copy of the token and keeps every copy of any other text. */
  lemma {:induction false} RemoveAllCounts(value: seq<string>, token: string)
    ensures multiset(RemoveAll(value, token)) == multiset(value)[token := 0]
  {
    if value != [] {
      RemoveAllCounts(value[1..], token);
      assert value == [value[0]] + value[1..];
    }
  }

  lemma {:induction false} RemoveAllAppend(a: seq<string>, b: seq<string>, token: string)
    ensures RemoveAll(a + b, token) == RemoveAll(a, token) + RemoveAll(b, token)
  {
    if a != [] {
      assert (a + b)[0] == a[0];
      assert (a + b)[1..] == a[1..] + b;
      RemoveAllAppend(a[1..], b, token);
      if a[0] != token {
        assert RemoveAll(a + b, token) == [a[0]] + RemoveAll(a[1..] + b, token);
      } else {
        assert RemoveAll(a + b, token) == RemoveAll(a[1..] + b, token);
      }
    } else {
      assert a + b == b;
    }
  }

  /** On a list without duplicates, removing the last token's text removes exactly the last token. */
  lemma RemoveLastOfDistinct(value: seq<string>)
    requires NoDuplicates(value) && |value| > 0
    ensures RemoveAll(value, value[|value| - 1]) == value[..|value| - 1]
  {
    var last := value[|value| - 1];
    var front := value[..|value| - 1];
    assert value == front + [last];
    RemoveAllAppend(front, [last], last);
    LastIsNew(value);
    RemoveOnly(last);
    assert front + [] == front;
  }

  /** In a list without duplicates the last token does not occur before it. */
  lemma LastIsNew(value: seq<string>)
    requires NoDuplicates(value) && |value| > 0
    ensures value[|value| - 1] !in value[..|value| - 1]
  {
    var front := value[..|value| - 1];
    forall k | 0 <= k < |front|
      ensures front[k] != value[|value| - 1]
    {
      assert front[k] == value[k];
    }
  }

  /** Removing a token from the list holding only that token leaves nothing. */
  lemma RemoveOnly(token: string)
    ensures RemoveAll([token], token) == []
  {
    assert [token][1..] == [];
  }

  /** On a list with duplicates, removal drops every copy: the list loses more than its last entry. */
  lemma RemoveLastOfDuplicated()
    ensures RemoveAll(["a", "a"], "a") == []
  {
  }

  /** The token field's state and props. */
  class TokenField {
    /** The controlled `value` prop; only the parent replaces it. */
    var value: seq<string>
    const suggestions: seq<string>
    const maxLength: Option<int>
    const disabled: bool
    /** Whether an `onChange` callback was passed. */
    const hasOnChange: bool

    var inputValue: string
    var isOpen: bool
    var activeIndex: int
    /** The arguments of every `onChange` call, oldest first. */
    ghost var emitted: seq<seq<string>>

    /** The highlighted index is never below -1. */
    ghost predicate Valid()
      reads this
    {
      activeIndex >= -1
    }

    constructor (value: seq<string>, suggestions: seq<string>, maxLength: Option<int>, disabled: bool, hasOnChange: bool)
      ensures Valid()
      ensures this.value == value && this.suggestions == suggestions && this.maxLength == maxLength
      ensures this.disabled == disabled && this.hasOnChange == hasOnChange
      ensures inputValue == "" && !isOpen && activeIndex == -1 && emitted == []
    {
      this.value := value;
      this.suggestions := suggestions;
      this.maxLength := maxLength;
      this.disabled := disabled;
      this.hasOnChange := hasOnChange;
      inputValue := "";
      isOpen := false;
      activeIndex := -1;
      emitted := [];
    }

    function Filtered(): seq<string>
      reads this
    {
      FilteredSuggestions(suggestions, inputValue, value)
    }

    /** The text input is hidden once the limit is reached. */
    predicate IsAtLimit()
      reads this
    {
      AtLimit(value, maxLength)
    }

    /** What `addToken(token)` does: on acceptance, emit the extended list and reset the input; otherwise nothing at all. */
    twostate predicate AddEffect(token: string)
      reads this
    {
      value == old(value)
      && match AcceptToken(old(value), token, maxLength)
         case Some(next) =>
           inputValue == "" && !isOpen && activeIndex == -1
           && emitted == old(emitted) + (if hasOnChange then [next] else [])
         case None =>
           inputValue == old(inputValue) && isOpen == old(isOpen) && activeIndex == old(activeIndex)
           && emitted == old(emitted)
    }

    method AddToken(token: string)
      requires Valid()
      modifies this`inputValue, this`isOpen, this`activeIndex, this`emitted
      ensures Valid() && AddEffect(token)
    {
      var trimmed := Trim(token);
      if trimmed == "" || trimmed in value {
        return;
      }
      if AtLimit(value, maxLength) {
        return;
      }
      if hasOnChange {
        emitted := emitted + [value + [trimmed]];
      }
      inputValue := "";
      isOpen := false;
      activeIndex := -1;
    }

    /** `removeToken`: emits the list without any copy of `token`, unless disabled. */
    method RemoveToken(token: string)
      modifies this`emitted
      ensures emitted == old(emitted) + (if !disabled && hasOnChange then [RemoveAll(value, token)] else [])
    {
      if disabled {
        return;
      }
      if hasOnChange {
        emitted := emitted + [RemoveAll(value, token)];
      }
    }

    /** Typing replaces the input text, opens the list and clears the highlight. */
    method HandleInputChange(text: string)
      modifies this`inputValue, this`isOpen, this`activeIndex
      ensures Valid()
      ensures inputValue == text && isOpen && activeIndex == -1
    {
      inputValue := text;
      isOpen := true;
      activeIndex := -1;
    }

    /** Focus opens the list only when there are suggestions at all. */
    method HandleInputFocus()
      modifies this`isOpen
      ensures isOpen == (old(isOpen) || |suggestions| > 0)
    {
      if |suggestions| > 0 {
        isOpen := true;
      }
    }

    /** The token Enter or comma tries to add: the highlighted suggestion if it exists and is non-empty, else the typed text if it is not blank. */
    function EnterTarget(): Option<string>
      reads this
    {
      var filtered := Filtered();
      if 0 <= activeIndex < |filtered| && filtered[activeIndex] != "" then Some(filtered[activeIndex])
      else if Trim(inputValue) != "" then Some(inputValue)
      else None
    }

    method HandleKeyDown(key: Key)
      requires Valid()
      modifies this`inputValue, this`isOpen, this`activeIndex, this`emitted
      ensures Valid()
      ensures disabled || key == Space || key == Other ==> unchanged(this)
      ensures !disabled && (key == Enter || key == Comma) ==>
        match old(EnterTarget())
        case Some(token) => AddEffect(token)
        case None => unchanged(this)
      ensures !disabled && key == Backspace ==>
        inputValue == old(inputValue) && isOpen == old(isOpen) && activeIndex == old(activeIndex)
        && emitted == old(emitted) + (if old(inputValue) == "" && |value| > 0 && hasOnChange
                                      then [RemoveAll(value, value[|value| - 1])] else [])
      ensures !disabled && key == ArrowDown ==>
        activeIndex == MoveDown(old(activeIndex), |old(Filtered())|)
        && inputValue == old(inputValue) && isOpen == old(isOpen) && emitted == old(emitted)
      ensures !disabled && key == ArrowUp ==>
        activeIndex == MoveUp(old(activeIndex))
        && inputValue == old(inputValue) && isOpen == old(isOpen) && emitted == old(emitted)
      ensures !disabled && key == Escape ==>
        !isOpen && activeIndex == -1 && inputValue == old(inputValue) && emitted == old(emitted)
    {
      if disabled {
        return;
      }
      match key {
        case Enter =>
          EnterKey();
        case Comma =>
          EnterKey();
        case Backspace =>
          if inputValue == "" && |value| > 0 {
            RemoveToken(value[|value| - 1]);
          }
        case ArrowDown =>
          activeIndex := MoveDown(activeIndex, |Filtered()|);
        case ArrowUp =>
          activeIndex := MoveUp(activeIndex);
        case Escape =>
          isOpen := false;
          activeIndex := -1;
        case _ =>
      }
    }

    /** The shared body of the Enter and comma cases. */
    method EnterKey()
      requires Valid()
      modifies this`inputValue, this`isOpen, this`activeIndex, this`emitted
      ensures Valid()
      ensures match old(EnterTarget())
        case Some(token) => AddEffect(token)
        case None => unchanged(this)
    {
      var filtered := Filtered();
      if activeIndex >= 0 && activeIndex < |filtered| && filtered[activeIndex] != "" {
        AddToken(filtered[activeIndex]);
      } else if Trim(inputValue) != "" {
        AddToken(inputValue);
      }
    }

    /** A mousedown on a suggestion adds it; this path does not look at `disabled`. */
    method HandleSuggestionMouseDown(suggestion: string)
      requires Valid()
      modifies this`inputValue, this`isOpen, this`activeIndex, this`emitted
      ensures Valid() && AddEffect(suggestion)
    {
      AddToken(suggestion);
    }

    /** A mousedown outside the field closes the list and clears the highlight. */
    method HandleOutsideMouseDown()
      modifies this`isOpen, this`activeIndex
      ensures Valid()
      ensures !isOpen && activeIndex == -1
    {
      isOpen := false;
      activeIndex := -1;
    }

    /** The parent re-renders with a new `value` prop (for example the one last emitted). */
    method SetValue(newValue: seq<string>)
      modifies this`value
      ensures value == newValue
    {
      value := newValue;
    }
  }
}
