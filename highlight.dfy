/**
 * src/components/ui/highlight.tsx: the text of a search result cut into
 * parts around the occurrences of the search term. The term is escaped into
 * a regular expression `(term)` with the flags `gi`, and `text.split` with
 * that capturing expression alternates unmatched text (even indices) and
 * matched occurrences (odd indices).
 */
module Highlight {
  import opened Wrappers
  import opened Text

  // ---------------------------------------------------------------------
  // Escaping

  /** The characters `[.*+?^${}()|[\]\\]` that the escape prefixes with a backslash. */
  predicate IsRegexMeta(c: char) {
    c == '.' || c == '*' || c == '+' || c == '?' || c == '^' || c == '$' || c == '{'
    || c == '}' || c == '(' || c == ')' || c == '|' || c == '[' || c == ']' || c == '\\'
  }

  /** `s.replace(/[.*+?^${}()|[\]\\]/g, '\\$&')`. */
  function EscapeRegex(s: string): (r: string)
    ensures |s| <= |r| <= 2 * |s|
    decreases |s|
  {
    if s == [] then []
    else (if IsRegexMeta(s[0]) then ['\\', s[0]] else [s[0]]) + EscapeRegex(s[1..])
  }

  function Prepend(c: char, rest: Option<string>): Option<string> {
    match rest
    case None => None
    case Some(t) => Some([c] + t)
  }

  /** The one string a pattern matches when it is read literally: ordinary
      characters stand for themselves and a backslash makes the metacharacter
      after it ordinary. `None` when the pattern holds an operator (an
      unescaped metacharacter) or any other escape. */
  function LiteralOf(p: string): (r: Option<string>)
    ensures r.Some? ==> |r.value| <= |p|
    decreases |p|
  {
    if p == [] then Some([])
    else if p[0] == '\\' then
      if |p| >= 2 && IsRegexMeta(p[1]) then Prepend(p[1], LiteralOf(p[2..])) else None
    else if IsRegexMeta(p[0]) then None
    else Prepend(p[0], LiteralOf(p[1..]))
  }

  /** The escaped term is a literal pattern for the term itself. */
  lemma {:induction false} EscapeIsLiteral(s: string)
    ensures LiteralOf(EscapeRegex(s)) == Some(s)
    decreases |s|
  {
    if s != [] {
      var e := EscapeRegex(s);
      EscapeIsLiteral(s[1..]);
      if IsRegexMeta(s[0]) {
        assert e[2..] == EscapeRegex(s[1..]);
      } else {
        assert e[1..] == EscapeRegex(s[1..]);
      }
      assert [s[0]] + s[1..] == s;
    }
  }

  /** Without the escape, `"a.b"` would not be a literal pattern; with it, it is. */
  lemma DotIsEscaped()
    ensures LiteralOf("a.b") == None
    ensures LiteralOf(EscapeRegex("a.b")) == Some("a.b")
  {
    assert "a.b"[1..] == ".b";
    EscapeIsLiteral("a.b");
  }

  // ---------------------------------------------------------------------
  // Matching

  /** Equal under the `i` flag: character by character, ASCII letters folded. */
  predicate EqualIgnoringCase(a: string, b: string) {
    |a| == |b| && forall i :: 0 <= i < |a| ==> LowerChar(a[i]) == LowerChar(b[i])
  }

  /** The same as lowercasing both sides and comparing. */
  lemma EqualIgnoringCaseIsLowerEqual(a: string, b: string)
    ensures EqualIgnoringCase(a, b) <==> ToLower(a) == ToLower(b)
  {
    if ToLower(a) == ToLower(b) {
      assert forall i :: 0 <= i < |a| ==> ToLower(a)[i] == ToLower(b)[i];
    }
  }

  /** The escaped term matches `s` at index `i`. */
  predicate MatchesAt(s: string, h: string, i: int) {
    0 <= i && i + |h| <= |s| && EqualIgnoringCase(s[i..i + |h|], h)
  }

  /** Matching in a suffix is matching in the whole string further along. */
  lemma MatchesAtSuffix(s: string, a: int, h: string, j: int)
    requires 0 <= a <= |s| && 0 <= j
    ensures MatchesAt(s[a..], h, j) <==> MatchesAt(s, h, a + j)
  {
    if j + |h| <= |s| - a {
      assert s[a..][j..j + |h|] == s[a + j..a + j + |h|];
    }
  }

  /** The index where the global regular expression, resumed at `from`, matches next. */
  function FirstMatch(text: string, h: string, from: nat): (r: Option<nat>)
    requires from <= |text|
    ensures r.Some? ==> from <= r.value && r.value + |h| <= |text|
    decreases |text| - from
  {
    if MatchesAt(text, h, from) then Some(from)
    else if from == |text| then None
    else FirstMatch(text, h, from + 1)
  }

  /** The search finds the leftmost match at or after `from`, and finds none
      only when there is none. */
  lemma {:induction false} FirstMatchIsLeftmost(text: string, h: string, from: nat)
    requires from <= |text|
    ensures FirstMatch(text, h, from).Some? ==> MatchesAt(text, h, FirstMatch(text, h, from).value)
    ensures FirstMatch(text, h, from).Some? ==>
              forall j :: from <= j < FirstMatch(text, h, from).value ==> !MatchesAt(text, h, j)
    ensures FirstMatch(text, h, from).None? ==> forall j :: from <= j ==> !MatchesAt(text, h, j)
    decreases |text| - from
  {
    if !MatchesAt(text, h, from) && from < |text| {
      FirstMatchIsLeftmost(text, h, from + 1);
    }
  }

  // ---------------------------------------------------------------------
  // Splitting

  /** `text.split(regex)` from index `from`: the text before the next match, the
      match itself (the capture group), then the same for the rest. */
  function SplitParts(text: string, h: string, from: nat): (parts: seq<string>)
    requires |h| > 0 && from <= |text|
    ensures |parts| % 2 == 1
    decreases |text| - from
  {
    match FirstMatch(text, h, from)
    case None => [text[from..]]
    case Some(i) => [text[from..i], text[i..i + |h|]] + SplitParts(text, h, i + |h|)
  }

  /** The parts written one after another. */
  function Concat(parts: seq<string>): string
    decreases |parts|
  {
    if parts == [] then [] else parts[0] + Concat(parts[1..])
  }

  /** What the component renders: the whole text for a blank term, otherwise
      the split parts. */
  function Highlight(text: string, highlight: string): (parts: seq<string>)
    ensures IsBlank(highlight) ==> parts == [text]
    ensures |parts| % 2 == 1
  {
    if IsBlank(highlight) then [text] else SplitParts(text, highlight, 0)
  }

  // ---------------------------------------------------------------------
  // Properties of the split

  /** One step of the split: no further match leaves the rest of the text as
      the last part; a match adds the text before it and the match itself. */
  lemma SplitStep(text: string, h: string, from: nat)
    requires |h| > 0 && from <= |text|
    ensures FirstMatch(text, h, from).None? ==> SplitParts(text, h, from) == [text[from..]]
    ensures FirstMatch(text, h, from).Some? ==>
              var i := FirstMatch(text, h, from).value;
              && from <= i && i + |h| <= |text|
              && |SplitParts(text, h, from)| >= 2
              && SplitParts(text, h, from)[0] == text[from..i]
              && SplitParts(text, h, from)[1] == text[i..i + |h|]
              && SplitParts(text, h, from)[2..] == SplitParts(text, h, i + |h|)
  {
    if FirstMatch(text, h, from).Some? {
      var i := FirstMatch(text, h, from).value;
      var rest := SplitParts(text, h, i + |h|);
      assert SplitParts(text, h, from) == [text[from..i], text[i..i + |h|]] + rest;
      assert ([text[from..i], text[i..i + |h|]] + rest)[2..] == rest;
    }
  }

  /** A matched step puts the text before the match and the match in front of the rest. */
  lemma ConcatAfterMatch(parts: seq<string>, text: string, from: nat, i: nat, len: nat)
    requires from <= i && i + len <= |text| && |parts| >= 2
    requires parts[0] == text[from..i] && parts[1] == text[i..i + len]
    requires Concat(parts[2..]) == text[i + len..]
    ensures Concat(parts) == text[from..]
  {
    assert parts[1..][1..] == parts[2..];
    assert text[from..i] + (text[i..i + len] + text[i + len..]) == text[from..];
  }

  lemma {:induction false} SplitConcat(text: string, h: string, from: nat)
    requires |h| > 0 && from <= |text|
    ensures Concat(SplitParts(text, h, from)) == text[from..]
    decreases |text| - from
  {
    var parts := SplitParts(text, h, from);
    SplitStep(text, h, from);
    if FirstMatch(text, h, from).None? {
      assert Concat(parts) == parts[0] + Concat([]);
    } else {
      var i := FirstMatch(text, h, from).value;
      SplitConcat(text, h, i + |h|);
      ConcatAfterMatch(parts, text, from, i, |h|);
    }
  }

  /** Every odd part has the term's length and equals it ignoring case. */
  predicate OddMatched(parts: seq<string>, h: string) {
    forall k :: 0 <= k < |parts| && k % 2 == 1 ==> |parts[k]| == |h| && EqualIgnoringCase(parts[k], h)
  }

  lemma OddMatchedCons(parts: seq<string>, h: string)
    requires |parts| >= 2 && EqualIgnoringCase(parts[1], h) && OddMatched(parts[2..], h)
    ensures OddMatched(parts, h)
  {
    forall k | 0 <= k < |parts| && k % 2 == 1
      ensures |parts[k]| == |h| && EqualIgnoringCase(parts[k], h)
    {
      if k > 1 {
        assert parts[k] == parts[2..][k - 2];
      }
    }
  }

  /** The odd parts are the matched occurrences: each equals the term ignoring case. */
  lemma {:induction false} SplitMatchedParts(text: string, h: string, from: nat)
    requires |h| > 0 && from <= |text|
    ensures OddMatched(SplitParts(text, h, from), h)
    decreases |text| - from
  {
    var parts := SplitParts(text, h, from);
    SplitStep(text, h, from);
    if FirstMatch(text, h, from).Some? {
      var i := FirstMatch(text, h, from).value;
      FirstMatchIsLeftmost(text, h, from);
      SplitMatchedParts(text, h, i + |h|);
      OddMatchedCons(parts, h);
    }
  }

  /** No occurrence begins in the first part: it runs up to the next match. */
  lemma FirstPartUnmatched(text: string, h: string, from: nat, j: int)
    requires |h| > 0 && from <= |text|
    requires 0 <= j < |SplitParts(text, h, from)[0]|
    ensures !MatchesAt(text[from..], h, j)
  {
    SplitStep(text, h, from);
    FirstMatchIsLeftmost(text, h, from);
    MatchesAtSuffix(text, from, h, j);
  }

  /** No occurrence begins inside the first part. */
  predicate FirstUnmatched(parts: seq<string>, h: string)
    requires parts != []
  {
    forall j :: 0 <= j < |parts[0]| ==> !MatchesAt(Concat(parts), h, j)
  }

  lemma FirstPartHasNoMatch(text: string, h: string, from: nat)
    requires |h| > 0 && from <= |text|
    ensures FirstUnmatched(SplitParts(text, h, from), h)
  {
    SplitConcat(text, h, from);
    forall j | 0 <= j < |SplitParts(text, h, from)[0]| ensures !MatchesAt(text[from..], h, j) {
      FirstPartUnmatched(text, h, from, j);
    }
  }

  /** Read from the start of any unmatched (even) part, no occurrence begins
      inside that part. */
  predicate Leftmost(parts: seq<string>, h: string) {
    forall k, j :: 0 <= k < |parts| && k % 2 == 0 && 0 <= j < |parts[k]| ==>
      !MatchesAt(Concat(parts[k..]), h, j)
  }

  lemma LeftmostCons(parts: seq<string>, h: string)
    requires |parts| >= 2 && FirstUnmatched(parts, h) && Leftmost(parts[2..], h)
    ensures Leftmost(parts, h)
  {
    forall k, j | 0 <= k < |parts| && k % 2 == 0 && 0 <= j < |parts[k]|
      ensures !MatchesAt(Concat(parts[k..]), h, j)
    {
      if k == 0 {
        assert parts[k..] == parts;
      } else {
        assert parts[k..] == parts[2..][k - 2..];
      }
    }
  }

  lemma LeftmostOne(parts: seq<string>, h: string)
    requires |parts| == 1 && FirstUnmatched(parts, h)
    ensures Leftmost(parts, h)
  {
    assert parts[0..] == parts;
  }

  /** Occurrences are taken leftmost first and without overlap. */
  lemma {:induction false} SplitLeftmost(text: string, h: string, from: nat)
    requires |h| > 0 && from <= |text|
    ensures Leftmost(SplitParts(text, h, from), h)
    decreases |text| - from
  {
    var parts := SplitParts(text, h, from);
    SplitStep(text, h, from);
    FirstPartHasNoMatch(text, h, from);
    if FirstMatch(text, h, from).None? {
      LeftmostOne(parts, h);
    } else {
      var next := FirstMatch(text, h, from).value + |h|;
      SplitLeftmost(text, h, next);
      LeftmostCons(parts, h);
    }
  }

  /** The parts of a highlighted text: they give back the text, the odd ones are
      the occurrences of the term ignoring case, and the even ones hold no
      occurrence, none starting inside them. */
  lemma HighlightParts(text: string, highlight: string)
    ensures Concat(Highlight(text, highlight)) == text
    ensures !IsBlank(highlight) ==> OddMatched(Highlight(text, highlight), highlight)
    ensures !IsBlank(highlight) ==> Leftmost(Highlight(text, highlight), highlight)
  {
    if IsBlank(highlight) {
      assert Concat([text]) == text + Concat([]);
    } else {
      SplitConcat(text, highlight, 0);
      SplitMatchedParts(text, highlight, 0);
      SplitLeftmost(text, highlight, 0);
    }
  }

  /** The empty text is one empty part, whatever the term. */
  lemma EmptyText(highlight: string)
    ensures Highlight([], highlight) == [[]]
  {
  }

  /** The term is matched literally: `"a.b"` finds nothing in `"axb"`. */
  lemma DotMatchesOnlyDot()
    ensures Highlight("axb", "a.b") == ["axb"]
    ensures Highlight("a.b", "a.b") == ["", "a.b", ""]
  {
    assert !IsSpace('a');
    assert "axb"[0..3] == "axb";
    assert ToLower("axb") != ToLower("a.b") by { assert ToLower("axb")[1] == 'x'; }
    assert FirstMatch("axb", "a.b", 0) == None;
    assert MatchesAt("a.b", "a.b", 0) by { assert "a.b"[0..3] == "a.b"; }
    assert FirstMatch("a.b", "a.b", 3) == None;
    assert "a.b"[3..] == [];
    assert "a.b"[0..0] == [];
  }
}
