/** Colours: decoding `#RGB`/`#RRGGBB` strings, the contrast ratio of WCAG 2.1,
    finding hex colour declarations in an inline `style`, and the low-contrast
    rule built from them. */
module Contrast {
  import opened Wrappers
  import opened Text
  import opened Seqs
  import opened Dom
  import opened Schemas
  import opened RuleEngine

  const ContrastId := "custom-color-contrast-low"

  /** The normal-text threshold of WCAG 2.1 success criterion 1.4.3. */
  const RequiredRatio: real := 4.5

  datatype RGB = RGB(r: int, g: int, b: int)

  // ----- hex digits and int(x, 16) on two characters -----

  predicate IsHexDigit(c: char) {
    '0' <= c <= '9' || 'a' <= c <= 'f' || 'A' <= c <= 'F'
  }

  function HexValue(c: char): (v: int)
    requires IsHexDigit(c)
    ensures 0 <= v < 16
  {
    if '0' <= c <= '9' then c as int - '0' as int
    else if 'a' <= c <= 'f' then c as int - 'a' as int + 10
    else c as int - 'A' as int + 10
  }

  /** The padding `int()` skips around its digits: Python's whitespace less
      the four separators U+001C..U+001F, which are `isspace` characters but
      not skipped by the integer parser. */
  predicate IntPadding(c: char) {
    IsSpace(c) && !('\U{001C}' <= c <= '\U{001F}')
  }

  /** `int(a + b, 16)` for two characters, or None where Python raises
      `ValueError`. Surrounding padding is ignored and a sign is accepted,
      so a two-character string can also be one signed or padded digit. */
  function ParsePair(a: char, b: char): (r: Option<int>)
    ensures IsHexDigit(a) && IsHexDigit(b) ==> r == Some(16 * HexValue(a) + HexValue(b))
    ensures r.Some? ==> IsHexDigit(a) || IsHexDigit(b)
    ensures r.Some? ==> -15 <= r.value <= 255
    ensures r.Some? && !IsHexDigit(a) ==> a == '+' || a == '-' || IntPadding(a)
  {
    if IsHexDigit(a) && IsHexDigit(b) then Some(16 * HexValue(a) + HexValue(b))
    else if a == '+' && IsHexDigit(b) then Some(HexValue(b))
    else if a == '-' && IsHexDigit(b) then Some(-HexValue(b))
    else if IntPadding(a) && IsHexDigit(b) then Some(HexValue(b))
    else if IsHexDigit(a) && IntPadding(b) then Some(HexValue(a))
    else None
  }

  /** A separator character is not padding for the parser, while a space is. */
  lemma SeparatorIsNoPadding()
    ensures ParsePair('\U{001C}', 'a') == None
    ensures ParsePair(' ', 'a') == Some(10) && ParsePair('a', '\t') == Some(10)
  {
  }

  /** `s.lstrip('#')`: every leading `#` removed. */
  function LStripHash(s: string): (r: string)
    ensures |r| <= |s| && r == s[|s| - |r|..]
    ensures forall k :: 0 <= k < |s| - |r| ==> s[k] == '#'
    ensures r == [] || r[0] != '#'
    decreases |s|
  {
    if |s| > 0 && s[0] == '#' then LStripHash(s[1..]) else s
  }

  /** The six characters after expanding a three-character form. */
  function Expand(t: string): string {
    if |t| == 3 then [t[0], t[0], t[1], t[1], t[2], t[2]] else t
  }

  /** `hex_to_rgb`: strip the leading `#`s, double each character of a
      three-character form, then read three two-character base-16 channels. */
  function HexToRgb(s: string): (r: Option<RGB>)
    ensures r.Some? ==> |LStripHash(s)| == 3 || |LStripHash(s)| == 6
    ensures r.Some? ==> -15 <= r.value.r <= 255 && -15 <= r.value.g <= 255 && -15 <= r.value.b <= 255
    ensures var t := LStripHash(s);
            (|t| == 3 || |t| == 6) && (forall k :: 0 <= k < |t| ==> IsHexDigit(t[k]))
            ==> r.Some? && InByteRange(r.value)
  {
    var u := Expand(LStripHash(s));
    if |u| == 6 then
      match (ParsePair(u[0], u[1]), ParsePair(u[2], u[3]), ParsePair(u[4], u[5]))
      case (Some(r), Some(g), Some(b)) => Some(RGB(r, g, b))
      case _ => None
    else None
  }

  /** `s` is `#` followed by three or six hex digits. */
  predicate IsHexColour(s: string) {
    (|s| == 4 || |s| == 7) && s[0] == '#' && forall k :: 1 <= k < |s| ==> IsHexDigit(s[k])
  }

  predicate InByteRange(c: RGB) {
    0 <= c.r <= 255 && 0 <= c.g <= 255 && 0 <= c.b <= 255
  }

  /** A hex colour always decodes; each channel is the base-16 value of its
      two digits (the digit doubled in the short form) and lies in 0..255. */
  lemma HexColourDecodes(s: string)
    requires IsHexColour(s)
    ensures HexToRgb(s).Some? && InByteRange(HexToRgb(s).value)
    ensures |s| == 7 ==> HexToRgb(s).value
                         == RGB(16 * HexValue(s[1]) + HexValue(s[2]), 16 * HexValue(s[3]) + HexValue(s[4]),
                                16 * HexValue(s[5]) + HexValue(s[6]))
    ensures |s| == 4 ==> HexToRgb(s).value
                         == RGB(17 * HexValue(s[1]), 17 * HexValue(s[2]), 17 * HexValue(s[3]))
  {
    var t := s[1..];
    assert LStripHash(s) == t by {
      assert s[1] != '#';
      assert LStripHash(t) == t;
    }
    if |s| == 7 {
      assert Expand(t) == t;
      assert ParsePair(t[0], t[1]) == Some(16 * HexValue(s[1]) + HexValue(s[2]));
      assert ParsePair(t[2], t[3]) == Some(16 * HexValue(s[3]) + HexValue(s[4]));
      assert ParsePair(t[4], t[5]) == Some(16 * HexValue(s[5]) + HexValue(s[6]));
    } else {
      assert Expand(t) == [s[1], s[1], s[2], s[2], s[3], s[3]];
    }
  }

  /** A separator character before the digits is not skipped: the string
      does not decode, although a space in its place would be. */
  lemma SeparatorPaddedColourRejected()
    ensures HexToRgb("\U{001C}a0000") == None
    ensures HexToRgb(" a0000") == Some(RGB(10, 0, 0))
  {
    assert LStripHash("\U{001C}a0000") == "\U{001C}a0000";
    assert LStripHash(" a0000") == " a0000";
  }

  /** Any number of leading `#`s, and the short form, decode as the long form:
      "#abc", "##abc" and "#aabbcc" are the same colour. */
  lemma ShortFormIsDoubled(hashes: string, a: char, b: char, c: char)
    requires forall k :: 0 <= k < |hashes| ==> hashes[k] == '#'
    requires a != '#'
    ensures HexToRgb(hashes + [a, b, c]) == HexToRgb(['#', a, a, b, b, c, c])
  {
    var short, long := hashes + [a, b, c], ['#', a, a, b, b, c, c];
    assert LStripHash(short) == [a, b, c] by {
      StripHashes(hashes, [a, b, c]);
    }
    assert LStripHash(long) == [a, a, b, b, c, c] by {
      assert long == ['#'] + [a, a, b, b, c, c];
      StripHashes(['#'], [a, a, b, b, c, c]);
    }
    SameDigitsSameColour(short, long);
  }

  /** Decoding depends only on the six characters left after stripping and expanding. */
  lemma SameDigitsSameColour(s1: string, s2: string)
    requires Expand(LStripHash(s1)) == Expand(LStripHash(s2))
    ensures HexToRgb(s1) == HexToRgb(s2)
  {
  }

  lemma {:induction false} StripHashes(hashes: string, x: string)
    requires forall k :: 0 <= k < |hashes| ==> hashes[k] == '#'
    requires x != [] && x[0] != '#'
    ensures LStripHash(hashes + x) == x
    decreases |hashes|
  {
    if hashes == [] {
      assert hashes + x == x;
    } else {
      assert (hashes + x)[1..] == hashes[1..] + x;
      StripHashes(hashes[1..], x);
    }
  }

  /** Only three or six characters left after the `#`s can decode. */
  lemma OnlyThreeOrSix(s: string)
    requires |LStripHash(s)| != 3 && |LStripHash(s)| != 6
    ensures HexToRgb(s) == None
  {
  }

  // ----- contrast ratio -----

  /** Relative luminance as an uninterpreted, non-negative function of the colour. */
  type Luminance = f: RGB -> real | forall c :: 0.0 <= f(c) witness (c: RGB) => 0.0

  /** `(L1 + 0.05) / (L2 + 0.05)` with `L1` the lighter of the two. */
  function ContrastRatio(l1: real, l2: real): (ratio: real)
    requires 0.0 <= l1 && 0.0 <= l2
    ensures ratio >= 1.0
    ensures ratio == 1.0 <==> l1 == l2
  {
    var hi, lo := if l2 > l1 then l2 else l1, if l2 > l1 then l1 else l2;
    (hi + 0.05) / (lo + 0.05)
  }

  /** `get_contrast_ratio` over a luminance function. */
  function ColourContrast(lum: Luminance, c1: RGB, c2: RGB): real {
    ContrastRatio(lum(c1), lum(c2))
  }

  /** The ratio does not depend on which colour is the text. */
  lemma RatioSymmetric(l1: real, l2: real)
    requires 0.0 <= l1 && 0.0 <= l2
    ensures ContrastRatio(l1, l2) == ContrastRatio(l2, l1)
  {
  }

  /** Identical colours have ratio 1; white on black has the maximum, 21. */
  lemma RatioExtremes(lum: Luminance, c: RGB)
    ensures ColourContrast(lum, c, c) == 1.0
    ensures ContrastRatio(1.0, 0.0) == 21.0
  {
  }

  /** Luminances in 0..1 give a ratio of at most 21. */
  lemma RatioAtMost21(l1: real, l2: real)
    requires 0.0 <= l1 <= 1.0 && 0.0 <= l2 <= 1.0
    ensures ContrastRatio(l1, l2) <= 21.0
  {
    var hi, lo := if l2 > l1 then l2 else l1, if l2 > l1 then l1 else l2;
    QuotientAtMost(hi + 0.05, lo + 0.05, 21.0);
  }

  lemma QuotientAtMost(x: real, y: real, k: real)
    requires y > 0.0 && x <= k * y
    ensures x / y <= k
  {
    assert x / y * y == x;
  }

  // ----- re.search(r'<key>\s*#([0-9a-fA-F]{3}){1,2}', style) -----

  /** The first index from `q` on that is not whitespace (`\s*`). */
  function SkipSpaces(s: string, q: nat): (r: nat)
    requires q <= |s|
    ensures q <= r <= |s| && AllSpace(s[q..r]) && (r == |s| || !IsSpace(s[r]))
    decreases |s| - q
  {
    if q < |s| && IsSpace(s[q]) then SkipSpaces(s, q + 1) else q
  }

  predicate HexRun(s: string, from: nat, n: nat) {
    from + n <= |s| && forall k :: from <= k < from + n ==> IsHexDigit(s[k])
  }

  /** The end of a match starting at `i`: the key, any whitespace, `#`, then
      six hex digits if there are six, otherwise three. */
  function MatchAt(s: string, key: string, i: nat): (r: Option<nat>)
    requires i <= |s|
    ensures r.Some? ==> i + |key| < r.value <= |s|
  {
    if i + |key| <= |s| && s[i..i + |key|] == key then
      var q := SkipSpaces(s, i + |key|);
      if q < |s| && s[q] == '#' then
        if HexRun(s, q + 1, 6) then Some(q + 7)
        else if HexRun(s, q + 1, 3) then Some(q + 4)
        else None
      else None
    else None
  }

  /** The leftmost match at or after `p`, as start and end. */
  function Search(s: string, key: string, p: nat): (r: Option<(nat, nat)>)
    requires p <= |s|
    ensures r.Some? ==> p <= r.value.0 <= |s| && MatchAt(s, key, r.value.0) == Some(r.value.1)
    ensures r.Some? ==> forall i :: p <= i < r.value.0 ==> MatchAt(s, key, i).None?
    ensures r.None? ==> forall i :: p <= i <= |s| ==> MatchAt(s, key, i).None?
    decreases |s| - p
  {
    if MatchAt(s, key, p).Some? then Some((p, MatchAt(s, key, p).value))
    else if p == |s| then None
    else Search(s, key, p + 1)
  }

  /** The text before the first `:` (all of it when there is none). */
  function UpToColon(x: string): (r: string)
    ensures |r| <= |x| && r == x[..|r|]
    decreases |x|
  {
    if x == [] || x[0] == ':' then [] else [x[0]] + UpToColon(x[1..])
  }

  /** The text after the first `:`, if there is one. */
  function AfterColon(x: string): (r: Option<string>)
    ensures r.Some? ==> |r.value| < |x| && r.value == x[|x| - |r.value|..]
    decreases |x|
  {
    if x == [] then None else if x[0] == ':' then Some(x[1..]) else AfterColon(x[1..])
  }

  /** `x.split(':')[1]`, None where Python raises `IndexError`. */
  function SecondField(x: string): Option<string> {
    match AfterColon(x)
    case None => None
    case Some(rest) => Some(UpToColon(rest))
  }

  /** `match.group(0).split(':')[1].strip()` for the leftmost match, or None
      when there is no match. */
  function DeclaredColour(style: string, key: string): Option<string> {
    match Search(style, key, 0)
    case None => None
    case Some((i, j)) =>
      match SecondField(style[i..j])
      case None => None
      case Some(f) => Some(Strip(f))
  }

  /** A key ending in its only colon, as both declaration names do. */
  predicate ColonTerminated(key: string) {
    |key| > 0 && key[|key| - 1] == ':' && forall k :: 0 <= k < |key| - 1 ==> key[k] != ':'
  }

  /** Both declaration names end in their only colon. */
  lemma DeclarationKeys()
    ensures ColonTerminated("color:") && ColonTerminated("background-color:")
  {
  }

  lemma {:induction false} AfterKey(key: string, rest: string)
    requires ColonTerminated(key)
    ensures AfterColon(key + rest) == Some(rest)
    decreases |key|
  {
    if |key| == 1 {
      assert (key + rest)[1..] == rest;
    } else {
      assert (key + rest)[1..] == key[1..] + rest;
      AfterKey(key[1..], rest);
    }
  }

  lemma {:induction false} NoColonKept(x: string)
    requires forall k :: 0 <= k < |x| ==> x[k] != ':'
    ensures UpToColon(x) == x
    decreases |x|
  {
    if x != [] {
      NoColonKept(x[1..]);
      assert [x[0]] + x[1..] == x;
    }
  }

  /** A match is the key, whitespace, then a hex colour. */
  lemma MatchShape(s: string, key: string, i: nat) returns (ws: string, x: string)
    requires i <= |s| && MatchAt(s, key, i).Some?
    ensures AllSpace(ws) && IsHexColour(x)
    ensures s[i..MatchAt(s, key, i).value] == key + (ws + x)
  {
    var j := MatchAt(s, key, i).value;
    var q := SkipSpaces(s, i + |key|);
    ws, x := s[i + |key|..q], s[q..j];
    assert s[i..j] == s[i..i + |key|] + (ws + x);
  }

  /** Splitting `key + whitespace + colour` at its colon and stripping yields the colour. */
  lemma FieldOfDeclaration(key: string, ws: string, x: string)
    requires ColonTerminated(key) && AllSpace(ws) && IsHexColour(x)
    ensures SecondField(key + (ws + x)) == Some(ws + x)
    ensures Strip(ws + x) == x
  {
    AfterKey(key, ws + x);
    forall k | 0 <= k < |ws + x|
      ensures (ws + x)[k] != ':'
    {
      if k < |ws| {
        assert IsSpace(ws[k]);
      } else {
        assert (ws + x)[k] == x[k - |ws|];
      }
    }
    NoColonKept(ws + x);
    StripLeadingSpaces(ws, x);
  }

  /** What a declaration search extracts is always `#` and three or six hex
      digits, never the surrounding whitespace, and so always decodes. */
  lemma DeclaredColourIsHex(style: string, key: string)
    requires ColonTerminated(key)
    ensures DeclaredColour(style, key).Some? ==> IsHexColour(DeclaredColour(style, key).value)
    ensures DeclaredColour(style, key).Some? ==> HexToRgb(DeclaredColour(style, key).value).Some?
  {
    match Search(style, key, 0)
    case None =>
    case Some((i, j)) =>
      var ws, x := MatchShape(style, key, i);
      FieldOfDeclaration(key, ws, x);
      HexColourDecodes(x);
  }

  // ----- the rule -----

  /** The fourteen text-bearing tags the rule looks at. */
  predicate IsTextTag(e: Element) {
    e.name in {"p", "span", "div", "h1", "h2", "h3", "h4", "h5", "h6", "a", "li", "td", "th", "label"}
  }

  /** Text and background colours of an element's non-empty inline `style`,
      when both declarations are found and both decode. */
  function StyleColours(e: Element): Option<(RGB, RGB)> {
    if !Truthy(Attr(e, "style")) then None
    else
      var style := Attr(e, "style").value;
      DecodeBoth(DeclaredColour(style, "color:"), DeclaredColour(style, "background-color:"))
  }

  /** Both values present and non-empty, then both decoded. */
  function DecodeBoth(t: Option<string>, b: Option<string>): Option<(RGB, RGB)> {
    if t.None? || b.None? || t.value == "" || b.value == "" then None
    else
      var tc, bc := HexToRgb(t.value), HexToRgb(b.value);
      if tc.None? || bc.None? then None else Some((tc.value, bc.value))
  }

  lemma DecodeBothHex(t: Option<string>, b: Option<string>)
    requires t.Some? ==> IsHexColour(t.value) && HexToRgb(t.value).Some?
    requires b.Some? ==> IsHexColour(b.value) && HexToRgb(b.value).Some?
    ensures DecodeBoth(t, b) == if t.Some? && b.Some? then Some((HexToRgb(t.value).value, HexToRgb(b.value).value)) else None
  {
  }

  /** The rule's decision: a text tag with visible text whose inline colours
      contrast by strictly less than 4.5. */
  predicate LowContrast(lum: Luminance, e: Element) {
    IsTextTag(e) && e.text != "" && StyleColours(e).Some?
    && ColourContrast(lum, StyleColours(e).value.0, StyleColours(e).value.1) < RequiredRatio
  }

  function LowContrastIn(lum: Luminance): Element -> bool {
    e => LowContrast(lum, e)
  }

  function ContrastFinding(e: Element): Issue {
    NewIssue(ContrastId, Prose(ContrastId, "description"), Prose(ContrastId, "help"), Critical,
             [NewNode([e.name], Some(e.markup))], Some(RuleAdvice(ContrastId, e.markup)))
  }

  /** One critical finding per low-contrast element, in document order, each
      naming the element's markup under its own tag. */
  function CheckColorContrast(doc: Document, lum: Luminance): (r: seq<Issue>)
    ensures |r| == |Filter(doc.elements, LowContrastIn(lum))|
    ensures forall k :: 0 <= k < |r| ==>
              var e := Filter(doc.elements, LowContrastIn(lum))[k];
              r[k].id == ContrastId && r[k].severity == Critical
              && r[k].nodes == [NewNode([e.name], Some(e.markup))]
              && IsTextTag(e) && e.text != ""
  {
    Collect(doc.elements, LowContrastIn(lum), ContrastFinding)
  }

  /** Only the fourteen tags, and only with non-empty stripped text, are examined. */
  lemma ContrastOnlyTextTags(doc: Document, lum: Luminance)
    ensures CheckColorContrast(doc, lum)
            == Collect(Filter(doc.elements, (e: Element) => IsTextTag(e) && e.text != ""),
                       LowContrastIn(lum), ContrastFinding)
  {
    CollectRestrict(doc.elements, (e: Element) => IsTextTag(e) && e.text != "", LowContrastIn(lum), ContrastFinding);
  }

  /** An element is reported exactly when it is one of the fourteen tags, has
      visible text and a non-empty `style` in which both colour declarations
      are found, and the ratio of the decoded colours is strictly below 4.5; a
      declaration that is missing skips the element without a finding. (A
      found declaration always decodes: `DeclaredColourIsHex`.) */
  lemma ContrastDecision(lum: Luminance, e: Element)
    ensures LowContrast(lum, e) <==>
              IsTextTag(e) && e.text != "" && "style" in e.attrs && e.attrs["style"] != ""
              && var t, b := DeclaredColour(e.attrs["style"], "color:"),
                             DeclaredColour(e.attrs["style"], "background-color:");
                 t.Some? && b.Some? && HexToRgb(t.value).Some? && HexToRgb(b.value).Some?
                 && ColourContrast(lum, HexToRgb(t.value).value, HexToRgb(b.value).value) < 4.5
  {
    StyleColoursFound(e);
  }

  /** Both declarations found in a non-empty `style` always decode, so the
      colours are missing only when a declaration is. */
  lemma StyleColoursFound(e: Element)
    ensures StyleColours(e).Some? <==>
              "style" in e.attrs && e.attrs["style"] != ""
              && DeclaredColour(e.attrs["style"], "color:").Some?
              && DeclaredColour(e.attrs["style"], "background-color:").Some?
    ensures StyleColours(e).Some? ==>
              HexToRgb(DeclaredColour(e.attrs["style"], "color:").value) == Some(StyleColours(e).value.0)
              && HexToRgb(DeclaredColour(e.attrs["style"], "background-color:").value) == Some(StyleColours(e).value.1)
  {
    if "style" in e.attrs && e.attrs["style"] != "" {
      var style := e.attrs["style"];
      DeclarationKeys();
      DeclaredColourIsHex(style, "color:");
      DeclaredColourIsHex(style, "background-color:");
      DecodeBothHex(DeclaredColour(style, "color:"), DeclaredColour(style, "background-color:"));
    }
  }

  /** The `color:` search is not anchored: in a style that starts with a
      well-formed `background-color` declaration it finds the `color:` inside
      that name, so the text colour read is the background colour. */
  lemma BackgroundFirstReadsBackground(rest: string)
    requires MatchAt("background-color:" + rest, "background-color:", 0).Some?
    ensures var style := "background-color:" + rest;
            DeclaredColour(style, "color:") == DeclaredColour(style, "background-color:")
            && DeclaredColour(style, "color:").Some?
  {
    var style := "background-color:" + rest;
    var j := MatchAt(style, "background-color:", 0).value;
    var value := style[17..j];
    DeclarationKeys();
    ColourKeyInsideBackground(style, j);
    assert SecondField(style[11..j]) == Some(UpToColon(value)) by {
      assert style[11..j] == "color:" + value;
      SecondFieldAfterKey("color:", value);
    }
    assert SecondField(style[0..j]) == Some(UpToColon(value)) by {
      assert style[0..j] == "background-color:" + value;
      SecondFieldAfterKey("background-color:", value);
    }
  }

  /** In a style that opens with a `background-color` declaration, the first
      `color:` match is the one inside it, eleven characters in. */
  lemma ColourKeyInsideBackground(style: string, j: nat)
    requires |style| >= 17 && style[..17] == "background-color:"
    requires MatchAt(style, "background-color:", 0) == Some(j)
    ensures Search(style, "color:", 0) == Some((11, j))
  {
    assert style[11..17] == "color:";
    assert MatchAt(style, "color:", 11) == Some(j);
    var key := "background-color:";
    DeclarationKeys();
    forall i | 0 <= i < 11
      ensures MatchAt(style, "color:", i).None?
    {
      assert style[i + 5] == key[i + 5] && key[i + 5] != ':';
      assert style[i..i + 6][5] == style[i + 5];
    }
    SearchFrom(style, "color:", 0, 11);
  }

  /** What follows a colon-terminated key is the second field. */
  lemma SecondFieldAfterKey(key: string, value: string)
    requires ColonTerminated(key)
    ensures SecondField(key + value) == Some(UpToColon(value))
  {
    AfterKey(key, value);
  }

  /** Positions without a match can be skipped by the search. */
  lemma {:induction false} SearchFrom(s: string, key: string, p: nat, p': nat)
    requires p <= p' <= |s|
    requires forall i :: p <= i < p' ==> MatchAt(s, key, i).None?
    ensures Search(s, key, p) == Search(s, key, p')
    decreases p' - p
  {
    if p < p' {
      SearchFrom(s, key, p + 1, p');
    }
  }

  /** Consequently white text on a black background is reported when the
      background is declared first, whatever the luminance function. */
  lemma BackgroundFirstAlwaysReported(lum: Luminance, e: Element, rest: string)
    requires IsTextTag(e) && e.text != ""
    requires Attr(e, "style") == Some("background-color:" + rest)
    requires MatchAt("background-color:" + rest, "background-color:", 0).Some?
    ensures LowContrast(lum, e)
  {
    BackgroundFirstReadsBackground(rest);
    StyleColoursFound(e);
    var c := StyleColours(e).value;
    assert c.0 == c.1;
    RatioExtremes(lum, c.0);
  }
}
