/**
 * ColorPicker: converts between `rgb(...)`/`rgba(...)` strings, `#rrggbb`
 * hex strings and the `rgba(...)` string it emits when alpha is enabled.
 *
 * `parseColor` searches its input for the leftmost match of
 * `rgba?\(\s*(\d+),\s*(\d+),\s*(\d+)(?:,\s*([\d.]+))?\s*\)`. Each part of that
 * pattern is deterministic (no alternative a backtracking matcher could take
 * succeeds where the greedy choice fails), so it is modelled as a scanner
 * over the rest of the input, one piece per part of the pattern.
 */
module ColorPicker {
  import opened Wrappers
  import opened Text

  /**
   * The alpha `parseColor` reports: `One` (the number 1) when the alpha group
   * did not take part in the match, else `Captured(text)` holding the captured
   * `[\d.]+` text, whose `parseFloat` is not part of this model.
   */
  datatype Alpha = One | Captured(text: string)

  datatype Color = Color(hex: string, alpha: Alpha)

  /** The three components and the optional alpha text of one match. */
  datatype RgbMatch = RgbMatch(r: nat, g: nat, b: nat, alpha: Option<string>)

  /** `cls*` skipped from the front of `s`. */
  function Drop(s: string, cls: CharClass): (r: string)
    ensures |r| <= |s| && r == s[|s| - |r|..]
    ensures AllIn(s[..|s| - |r|], cls)
    ensures r != [] ==> !InClass(r[0], cls)
  {
    s[Span(s, cls)..]
  }

  /** `(\d+)`: the value of the leading digits and what follows them. */
  function ScanNumber(s: string): (r: Option<(nat, string)>)
    ensures r.None? <==> s == [] || !IsDigit(s[0])
    ensures r.Some? ==> |r.value.1| < |s| && (r.value.1 == [] || !IsDigit(r.value.1[0]))
  {
    var n := Span(s, Digit);
    if n == 0 then None
    else
      assert AllDigits(s[..n]) by {
        assert forall k :: 0 <= k < n ==> InClass(s[..n][k], Digit);
      }
      Some((DecimalValue(s[..n]), s[n..]))
  }

  /** `,\s*`: what follows the comma and the spaces after it. */
  function ScanComma(s: string): (r: Option<string>)
    ensures r.Some? <==> s != [] && s[0] == ','
    ensures r.Some? ==> |r.value| < |s| && (r.value != [] ==> !IsWhitespace(r.value[0]))
  {
    if s != [] && s[0] == ',' then Some(Drop(s[1..], WhiteSpace)) else None
  }

  /** `(\d+),\s*(\d+),\s*(\d+)`: the three components and what follows them. */
  function ScanComponents(s: string): (r: Option<(nat, nat, nat, string)>)
    ensures (s == [] || !IsDigit(s[0])) ==> r.None?
    ensures r.Some? ==> |r.value.3| < |s| && (r.value.3 == [] || !IsDigit(r.value.3[0]))
  {
    match ScanNumber(s)
    case None => None
    case Some((r, t1)) =>
      match ScanComma(t1)
      case None => None
      case Some(s2) =>
        match ScanNumber(s2)
        case None => None
        case Some((g, t2)) =>
          match ScanComma(t2)
          case None => None
          case Some(s3) =>
            match ScanNumber(s3)
            case None => None
            case Some((b, tail)) => Some((r, g, b, tail))
  }

  /**
   * `(?:,\s*([\d.]+))?\s*\)`: the optional alpha text, when the closing
   * parenthesis is reached. After the third number a comma can only start the
   * alpha group, so a comma without a valid group fails the match.
   */
  function ScanClose(s: string): (r: Option<Option<string>>)
    ensures r.Some? ==> ')' in s
    ensures r.Some? ==> (r.value.Some? <==> s[0] == ',')
    ensures r.Some? && r.value.Some? ==> r.value.value != [] && AllIn(r.value.value, DigitOrDot)
  {
    if s != [] && s[0] == ',' then
      var t := Drop(s[1..], WhiteSpace);
      var n := Span(t, DigitOrDot);
      var c := Drop(t[n..], WhiteSpace);
      if n > 0 && c != [] && c[0] == ')' then Some(Some(t[..n])) else None
    else
      var c := Drop(s, WhiteSpace);
      if c != [] && c[0] == ')' then Some(None) else None
  }

  /** `rgba?\(`: what follows the opening parenthesis. */
  function Opening(s: string): (r: Option<string>)
    ensures r.Some? ==> IsPrefix("rgb", s)
  {
    if |s| < 4 || s[..3] != "rgb" then None
    else
      var u := if s[3] == 'a' then s[4..] else s[3..];
      if u == [] || u[0] != '(' then None else Some(u[1..])
  }

  /** A match of the pattern that starts at the front of `s`. */
  function MatchHere(s: string): (r: Option<RgbMatch>)
    ensures r.Some? ==> IsPrefix("rgb", s)
  {
    match Opening(s)
    case None => None
    case Some(u) =>
      match ScanComponents(Drop(u, WhiteSpace))
      case None => None
      case Some((r, g, b, tail)) =>
        match ScanClose(tail)
        case None => None
        case Some(alpha) => Some(RgbMatch(r, g, b, alpha))
  }

  /** `color.match(...)`: the leftmost match, trying each start position in turn. */
  function Search(s: string): Option<RgbMatch> {
    match MatchHere(s)
    case Some(m) => Some(m)
    case None => if s == [] then None else Search(s[1..])
  }

  /** There is no match exactly when the pattern matches at no start position. */
  lemma {:induction false} SearchNone(s: string)
    ensures Search(s).None? <==> forall i :: 0 <= i <= |s| ==> MatchHere(s[i..]).None?
  {
    assert s[0..] == s;
    if MatchHere(s).Some? {
      assert MatchHere(s[0..]).Some?;
    } else if s != [] {
      var t := s[1..];
      SearchNone(t);
      forall i | 1 <= i <= |s|
        ensures t[i - 1..] == s[i..]
      {
      }
      if forall k :: 0 <= k <= |t| ==> MatchHere(t[k..]).None? {
        forall i | 0 <= i <= |s|
          ensures MatchHere(s[i..]).None?
        {
          if i > 0 {
            assert MatchHere(t[i - 1..]).None?;
          }
        }
      } else {
        var k :| 0 <= k <= |t| && MatchHere(t[k..]).Some?;
        assert MatchHere(s[k + 1..]).Some?;
      }
    }
  }

  /** The match reported is the one at the leftmost start position where the pattern matches. */
  lemma {:induction false} SearchLeftmost(s: string, i: nat)
    requires i <= |s| && MatchHere(s[i..]).Some?
    requires forall j :: 0 <= j < i ==> MatchHere(s[j..]).None?
    ensures Search(s) == MatchHere(s[i..])
  {
    assert s[0..] == s;
    if i > 0 {
      var t := s[1..];
      assert MatchHere(s).None?;
      assert Search(s) == Search(t);
      assert t[i - 1..] == s[i..];
      forall j | 0 <= j < i - 1
        ensures MatchHere(t[j..]).None?
      {
        assert t[j..] == s[j + 1..];
      }
      SearchLeftmost(t, i - 1);
    }
  }

  /** A match needs the text `rgb` somewhere in the input. */
  lemma {:induction false} SearchNeedsRgb(s: string)
    requires Search(s).Some?
    ensures Contains(s, "rgb")
  {
    if MatchHere(s).None? {
      SearchNeedsRgb(s[1..]);
    }
  }

  /** `v.toString(16).padStart(2, '0')` of each component, after a `#`. */
  function HexOf(r: nat, g: nat, b: nat): (h: string)
    ensures |h| >= 7 && h[0] == '#'
  {
    var digits := HexByte(r) + HexByte(g) + HexByte(b);
    assert |HexByte(r)| >= 2 && |HexByte(g)| >= 2 && |HexByte(b)| >= 2;
    assert ("#" + digits)[0] == '#';
    "#" + digits
  }

  /**
   * `parseColor`: black for the empty string; the components of the first
   * `rgb(...)`/`rgba(...)` match in hex, with its alpha or 1; otherwise the
   * input itself with alpha 1.
   */
  function ParseColor(color: string): (c: Color)
    ensures color == "" ==> c == Color("#000000", One)
    ensures color != "" && Search(color).None? ==> c == Color(color, One)
    ensures color != "" && Search(color).Some? ==>
      |c.hex| >= 7 && c.hex[0] == '#' && (c.alpha == One <==> Search(color).value.alpha.None?)
    ensures color != "" && Search(color).Some? ==>
      var m := Search(color).value;
      c.hex == HexOf(m.r, m.g, m.b) && c.alpha == if m.alpha.Some? then Captured(m.alpha.value) else One
  {
    if color == "" then Color("#000000", One)
    else match Search(color)
      case Some(m) => Color(HexOf(m.r, m.g, m.b), if m.alpha.Some? then Captured(m.alpha.value) else One)
      case None => Color(color, One)
  }

  /** Input without the text `rgb` is returned as the hex unchanged, with alpha 1. */
  lemma NonRgbUnchanged(color: string)
    requires color != "" && !Contains(color, "rgb")
    ensures ParseColor(color) == Color(color, One)
  {
    if Search(color).Some? {
      SearchNeedsRgb(color);
    }
  }

  // ---------------------------------------------------------------------------
  // hexToRgba
  // ---------------------------------------------------------------------------

  predicate AllHex(s: string) {
    forall k :: 0 <= k < |s| ==> IsHexDigit(s[k])
  }

  /** The value of two hex digits, either case. */
  function PairValue(s: string): nat
    requires |s| == 2 && AllHex(s)
  {
    HexValue(s[0]) * 16 + HexValue(s[1])
  }

  /** The three components of six hex digits. */
  function Components(h: string): (nat, nat, nat)
    requires |h| == 6 && AllHex(h)
  {
    (PairValue(h[0..2]), PairValue(h[2..4]), PairValue(h[4..6]))
  }

  /** `/^#?([a-f\d]{2})([a-f\d]{2})([a-f\d]{2})$/i`: six hex digits, either case, with or without a leading `#`. */
  function HexMatch(hex: string): (r: Option<(nat, nat, nat)>)
    ensures r.Some? <==> (|hex| == 7 && hex[0] == '#' && AllHex(hex[1..])) || (|hex| == 6 && AllHex(hex))
  {
    if |hex| == 7 && hex[0] == '#' && AllHex(hex[1..]) then Some(Components(hex[1..]))
    else if |hex| == 6 && AllHex(hex) then Some(Components(hex))
    else None
  }

  function RgbaText(r: nat, g: nat, b: nat, alpha: string): string {
    "rgba(" + NatToDecimal(r) + ", " + NatToDecimal(g) + ", " + NatToDecimal(b) + ", " + alpha + ")"
  }

  /** `hexToRgba`; `alpha` is the alpha as the template literal renders it. */
  function HexToRgba(hex: string, alpha: string): (r: string)
    ensures HexMatch(hex).None? ==> r == RgbaText(0, 0, 0, alpha)
    ensures HexMatch(hex).Some? ==> var (cr, cg, cb) := HexMatch(hex).value; r == RgbaText(cr, cg, cb, alpha)
  {
    match HexMatch(hex)
    case None => RgbaText(0, 0, 0, alpha)
    case Some((r, g, b)) => RgbaText(r, g, b, alpha)
  }

  /** The `#` is optional: six hex digits convert the same with or without it. */
  lemma HashOptional(digits: string, alpha: string)
    requires |digits| == 6 && AllHex(digits)
    ensures HexToRgba("#" + digits, alpha) == HexToRgba(digits, alpha)
  {
    assert ("#" + digits)[1..] == digits;
  }

  // ---------------------------------------------------------------------------
  // Round trips
  // ---------------------------------------------------------------------------

  /** A non-empty run of decimal digits, as `String(n)` writes a natural number. */
  predicate Decimal(d: string) {
    d != [] && AllDigits(d)
  }

  /** The text after the opening parenthesis: three numbers separated by a comma and a space, then `tail`. */
  function Body(d1: string, d2: string, d3: string, tail: string): string {
    d1 + (", " + (d2 + (", " + (d3 + tail))))
  }

  /** Scanning a number stops at the first character that is not a digit. */
  lemma ScanNumberOf(d: string, rest: string)
    requires Decimal(d) && (rest == [] || !IsDigit(rest[0]))
    ensures ScanNumber(d + rest) == Some((DecimalValue(d), rest))
  {
    assert AllIn(d, Digit);
    SpanOf(d, rest, Digit);
    assert (d + rest)[..|d|] == d && (d + rest)[|d|..] == rest;
  }

  /** `, ` followed by a number: the comma and the one space are skipped. */
  lemma ScanCommaOf(d: string, rest: string)
    requires Decimal(d)
    ensures ScanComma(", " + (d + rest)) == Some(d + rest)
  {
    assert (", " + (d + rest))[1..] == " " + (d + rest);
    assert (d + rest)[0] == d[0];
    SpanOf(" ", d + rest, WhiteSpace);
    assert (" " + (d + rest))[1..] == d + rest;
  }

  lemma ScanComponentsOf(d1: string, d2: string, d3: string, tail: string)
    requires Decimal(d1) && Decimal(d2) && Decimal(d3) && (tail == [] || !IsDigit(tail[0]))
    ensures ScanComponents(Body(d1, d2, d3, tail))
         == Some((DecimalValue(d1), DecimalValue(d2), DecimalValue(d3), tail))
  {
    var t2 := ", " + (d3 + tail);
    var t1 := ", " + (d2 + t2);
    ScanNumberOf(d1, t1);
    ScanCommaOf(d2, t2);
    ScanNumberOf(d2, t2);
    ScanCommaOf(d3, tail);
    ScanNumberOf(d3, tail);
  }

  lemma OpeningOf(opening: string, body: string)
    requires opening == "rgb(" || opening == "rgba("
    ensures Opening(opening + body) == Some(body)
  {
    var s := opening + body;
    assert s[..3] == "rgb";
    if opening == "rgb(" {
      assert s[3..] == "(" + body;
    } else {
      assert s[4..] == "(" + body;
    }
    assert ("(" + body)[1..] == body;
  }

  /** The body starts with a digit, so no space is skipped before it. */
  lemma DropBody(d1: string, d2: string, d3: string, tail: string)
    requires Decimal(d1)
    ensures Drop(Body(d1, d2, d3, tail), WhiteSpace) == Body(d1, d2, d3, tail)
  {
    var body := Body(d1, d2, d3, tail);
    assert body[0] == d1[0];
    SpanOf([], body, WhiteSpace);
  }

  /** `rgb(` or `rgba(` directly followed by three numbers and `tail` matches exactly when `tail` closes it. */
  lemma MatchHereOf(opening: string, d1: string, d2: string, d3: string, tail: string)
    requires opening == "rgb(" || opening == "rgba("
    requires Decimal(d1) && Decimal(d2) && Decimal(d3) && (tail == [] || !IsDigit(tail[0]))
    ensures MatchHere(opening + Body(d1, d2, d3, tail))
         == if ScanClose(tail).None? then None
            else Some(RgbMatch(DecimalValue(d1), DecimalValue(d2), DecimalValue(d3), ScanClose(tail).value))
  {
    var body := Body(d1, d2, d3, tail);
    OpeningOf(opening, body);
    DropBody(d1, d2, d3, tail);
    ScanComponentsOf(d1, d2, d3, tail);
  }

  function RgbText(r: nat, g: nat, b: nat): string {
    "rgb(" + NatToDecimal(r) + ", " + NatToDecimal(g) + ", " + NatToDecimal(b) + ")"
  }

  /** `)` closes a match without an alpha group. */
  lemma ScanCloseParen()
    ensures ScanClose(")") == Some(None)
  {
    SpanOf([], ")", WhiteSpace);
    assert Drop(")", WhiteSpace) == ")";
  }

  /** `parseColor("rgb(r, g, b)")` is the `#` and three hex pairs of the components, with alpha 1. */
  lemma ParseRgb(r: nat, g: nat, b: nat)
    ensures ParseColor(RgbText(r, g, b)) == Color(HexOf(r, g, b), One)
  {
    var d1, d2, d3 := NatToDecimal(r), NatToDecimal(g), NatToDecimal(b);
    assert RgbText(r, g, b) == "rgb(" + Body(d1, d2, d3, ")");
    ScanCloseParen();
    MatchHereOf("rgb(", d1, d2, d3, ")");
    DecimalRoundTrip(r);
    DecimalRoundTrip(g);
    DecimalRoundTrip(b);
  }

  /** One space before text that does not start with a space is skipped. */
  lemma DropOneSpace(t: string)
    requires t != [] && !IsWhitespace(t[0])
    ensures Drop(" " + t, WhiteSpace) == t
  {
    SpanOf(" ", t, WhiteSpace);
    assert (" " + t)[1..] == t;
  }

  /** `, a)` closes a match with the alpha text `a` when `a` is digits and dots. */
  lemma ScanCloseAlpha(alpha: string)
    requires alpha != [] && AllIn(alpha, DigitOrDot)
    ensures ScanClose(", " + (alpha + ")")) == Some(Some(alpha))
  {
    var t := alpha + ")";
    var s := ", " + t;
    assert s[1..] == " " + t;
    assert t[0] == alpha[0];
    DropOneSpace(t);
    SpanOf(alpha, ")", DigitOrDot);
    assert t[..|alpha|] == alpha && t[|alpha|..] == ")";
    ScanCloseComma(s, t, |alpha|);
  }

  /** After a comma, a run of digits and dots followed directly by `)` is the alpha text. */
  lemma ScanCloseComma(s: string, t: string, n: nat)
    requires s != [] && s[0] == ',' && Drop(s[1..], WhiteSpace) == t
    requires n > 0 && n == Span(t, DigitOrDot) && t[n..] == ")"
    ensures ScanClose(s) == Some(Some(t[..n]))
  {
    ScanCloseParen();
  }

  /** `parseColor("rgba(r, g, b, a)")` keeps the alpha text `a` when it is digits and dots. */
  lemma ParseRgba(r: nat, g: nat, b: nat, alpha: string)
    requires alpha != [] && AllIn(alpha, DigitOrDot)
    ensures ParseColor(RgbaText(r, g, b, alpha)) == Color(HexOf(r, g, b), Captured(alpha))
  {
    var d1, d2, d3 := NatToDecimal(r), NatToDecimal(g), NatToDecimal(b);
    var tail := ", " + (alpha + ")");
    assert RgbaText(r, g, b, alpha) == "rgba(" + Body(d1, d2, d3, tail);
    ScanCloseAlpha(alpha);
    MatchHereOf("rgba(", d1, d2, d3, tail);
    DecimalRoundTrip(r);
    DecimalRoundTrip(g);
    DecimalRoundTrip(b);
  }

  /** Three components in 0..255 become `#` and six lower-case hex digits that convert back to them. */
  lemma HexOfMatches(r: nat, g: nat, b: nat)
    requires r < 256 && g < 256 && b < 256
    ensures |HexOf(r, g, b)| == 7
    ensures forall k :: 1 <= k < 7 ==> IsLowerHexDigit(HexOf(r, g, b)[k])
    ensures HexMatch(HexOf(r, g, b)) == Some((r, g, b))
  {
    HexByteRoundTrip(r);
    HexByteRoundTrip(g);
    HexByteRoundTrip(b);
    var h := HexOf(r, g, b);
    var digits := HexByte(r) + HexByte(g) + HexByte(b);
    assert h[1..] == digits;
    assert digits[0..2] == HexByte(r) && digits[2..4] == HexByte(g) && digits[4..6] == HexByte(b);
  }

  /** For components in 0..255, `hexToRgba(parseColor("rgb(r, g, b)").hex, a)` is `rgba(r, g, b, a)`. */
  lemma RgbRoundTrip(r: nat, g: nat, b: nat, alpha: string)
    requires r < 256 && g < 256 && b < 256
    ensures HexToRgba(ParseColor(RgbText(r, g, b)).hex, alpha) == RgbaText(r, g, b, alpha)
  {
    ParseRgb(r, g, b);
    HexOfMatches(r, g, b);
  }

  /** A component above 255 gives a hex too long for `hexToRgba`, which then falls back to black. */
  lemma WideComponentIsBlack(r: nat, g: nat, b: nat, alpha: string)
    requires r >= 256
    ensures HexToRgba(ParseColor(RgbText(r, g, b)).hex, alpha) == RgbaText(0, 0, 0, alpha)
  {
    ParseRgb(r, g, b);
    HexByteWide(r);
    var h := ParseColor(RgbText(r, g, b)).hex;
    assert h == HexOf(r, g, b);
    assert |h| > 7;
    assert HexMatch(h).None?;
  }

  // ---------------------------------------------------------------------------
  // emitChange
  // ---------------------------------------------------------------------------

  /** `emitChange`: nothing without `onChange`; the rgba string when alpha is enabled; the hex otherwise. */
  function EmitChange(newHex: string, alpha: string, enableAlpha: bool, hasOnChange: bool): (r: Option<string>)
    ensures r.Some? <==> hasOnChange
    ensures r.Some? && !enableAlpha ==> r.value == newHex
    ensures r.Some? && enableAlpha ==> r.value == HexToRgba(newHex, alpha)
  {
    if !hasOnChange then None
    else if enableAlpha then Some(HexToRgba(newHex, alpha))
    else Some(newHex)
  }
}
