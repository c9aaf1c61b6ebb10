/**
 The three regular expressions `extract_cc` uses on a cell or paragraph text:
 the number pattern `([0-9]{6,20})`, the label patterns `CC\s*[:\-]?` and
 `\s*CC\s*[:\-]?\s*` (matched in full, ignoring case), and the inline pattern
 `\bCC\b\s*[:\-]?\s*([0-9]{6,20})` (ignoring case). Each search is leftmost and
 each repetition greedy, as in Python's `re`.
 */
module CedulaPatterns {
  import opened Wrappers
  import opened Text

  /** The bounds of the repetition `{6,20}`. */
  const MinDigits := 6
  const MaxDigits := 20

  function Min(a: int, b: int): int { if a < b then a else b }

  /** The letters "CC", in either case, at positions `k` and `k + 1`. */
  predicate CcAt(s: string, k: int) {
    0 <= k && k + 1 < |s| && Lower(s[k]) == 'c' && Lower(s[k + 1]) == 'c'
  }

  /** The text contains "CC", ignoring case. */
  ghost predicate MentionsCc(s: string) {
    exists k :: CcAt(s, k)
  }

  /** The characters of the optional `[:\-]`. */
  predicate IsLabelMark(c: char) { c == ':' || c == '-' }

  // ---------------------------------------------------------------- numbers

  /** Six digits stand at `k`: the places where `[0-9]{6,20}` can match. */
  ghost predicate SixDigitsAt(s: string, k: int) {
    0 <= k && k + MinDigits <= |s| && AllDigits(s[k..k + MinDigits])
  }

  /** `v` stands at `k` and is the digit run starting there, or its first
      twenty digits when the run is longer. */
  ghost predicate DigitRunAt(s: string, k: int, v: string) {
    OccursAt(v, s, k) && MinDigits <= |v| <= MaxDigits && AllDigits(v) &&
    (|v| < MaxDigits ==> k + |v| == |s| || !IsDigit(s[k + |v|]))
  }

  /** `v` is the leftmost match of `([0-9]{6,20})` in `s`, found at `k`. */
  ghost predicate FirstRunAt(s: string, k: int, v: string) {
    DigitRunAt(s, k, v) && (k == 0 || !IsDigit(s[k - 1])) &&
    forall j :: 0 <= j < k ==> !SixDigitsAt(s, j)
  }

  lemma LeadingDigitsAtLeast(t: string, m: nat)
    ensures LeadingDigits(t) >= m <==> m <= |t| && AllDigits(t[..m])
  {
    var n := LeadingDigits(t);
    if n < m <= |t| {
      assert t[..m][n] == t[n];
    }
    if n >= m {
      assert forall i :: 0 <= i < m ==> t[..m][i] == t[..n][i];
    }
  }

  /** The match of `([0-9]{6,20})` anchored at `k`, if there is one. */
  function ValueAt(s: string, k: nat): Option<string>
    requires k <= |s|
  {
    var n := LeadingDigits(s[k..]);
    if n >= MinDigits then Some(s[k..k + Min(n, MaxDigits)]) else None
  }

  lemma ValueAtSpec(s: string, k: nat)
    requires k <= |s|
    ensures ValueAt(s, k).Some? <==> SixDigitsAt(s, k)
    ensures ValueAt(s, k).Some? ==> DigitRunAt(s, k, ValueAt(s, k).value)
  {
    var t := s[k..];
    var n := LeadingDigits(t);
    LeadingDigitsAtLeast(t, MinDigits);
    if k + MinDigits <= |s| {
      assert t[..MinDigits] == s[k..k + MinDigits];
    }
    if n >= MinDigits {
      var v := ValueAt(s, k).value;
      assert v == t[..Min(n, MaxDigits)];
      assert forall i :: 0 <= i < |v| ==> v[i] == t[..n][i];
      if |v| < MaxDigits && k + |v| < |s| {
        assert s[k + |v|] == t[n];
      }
    }
  }

  /** `pattern_value.search`, trying the start positions from `from` on. */
  function ValueFrom(s: string, from: nat): Option<string>
    requires from <= |s|
    decreases |s| - from
  {
    if ValueAt(s, from).Some? then ValueAt(s, from)
    else if from == |s| then None
    else ValueFrom(s, from + 1)
  }

  lemma {:induction false} ValueFromSpec(s: string, from: nat)
    requires from <= |s|
    ensures ValueFrom(s, from).None? <==> forall k :: from <= k ==> !SixDigitsAt(s, k)
    ensures ValueFrom(s, from).Some? ==>
      exists k :: from <= k && DigitRunAt(s, k, ValueFrom(s, from).value) &&
        forall j :: from <= j < k ==> !SixDigitsAt(s, j)
    decreases |s| - from
  {
    ValueAtSpec(s, from);
    if ValueAt(s, from).None? && from < |s| {
      ValueFromSpec(s, from + 1);
      if ValueFrom(s, from).Some? {
        var k :| from + 1 <= k && DigitRunAt(s, k, ValueFrom(s, from).value) &&
          forall j :: from + 1 <= j < k ==> !SixDigitsAt(s, j);
        assert forall j :: from <= j < k ==> !SixDigitsAt(s, j);
      }
    }
  }

  /** `pattern_value.search(s)`: the leftmost run of at least six digits,
      cut to its first twenty. */
  function SearchValue(s: string): Option<string> {
    ValueFrom(s, 0)
  }

  /** The number pattern finds nothing exactly when no six digits stand
      together, and what it finds is the leftmost such run, whole when it has
      at most twenty digits and cut to twenty otherwise; a shorter run is never
      taken. */
  lemma SearchValueSpec(s: string)
    ensures SearchValue(s).None? <==> forall k :: !SixDigitsAt(s, k)
    ensures SearchValue(s).Some? ==> exists k :: FirstRunAt(s, k, SearchValue(s).value)
  {
    ValueFromSpec(s, 0);
    if SearchValue(s).Some? {
      var v := SearchValue(s).value;
      var k :| 0 <= k && DigitRunAt(s, k, v) && forall j :: 0 <= j < k ==> !SixDigitsAt(s, j);
      if k > 0 && IsDigit(s[k - 1]) {
        // the run would then start one place earlier
        var w := s[k - 1..k - 1 + MinDigits];
        assert !SixDigitsAt(s, k - 1);
        assert !AllDigits(w);
        forall i | 0 <= i < |w|
          ensures IsDigit(w[i])
        {
          if i > 0 {
            assert w[i] == v[i - 1];
          }
        }
        assert false;
      }
      assert FirstRunAt(s, k, v);
    }
  }

  /** Two digit runs read from the same place are the same. */
  lemma DigitRunsAgree(s: string, k: int, v: string, w: string)
    requires DigitRunAt(s, k, v) && DigitRunAt(s, k, w)
    ensures v == w
  {
    assert forall i :: 0 <= i < |v| ==> s[k + i] == v[i];
    assert forall i :: 0 <= i < |w| ==> s[k + i] == w[i];
    assert |v| == |w|;
  }

  /** Six digits read from the start of a run. */
  lemma RunHasSixDigits(s: string, k: int, v: string)
    requires DigitRunAt(s, k, v)
    ensures SixDigitsAt(s, k)
  {
    assert s[k..k + MinDigits] == v[..MinDigits];
  }

  /** The number pattern agrees with its description: there is one leftmost
      run, and it determines the match. */
  lemma {:induction false} FirstRunUnique(s: string, k: int, v: string)
    requires FirstRunAt(s, k, v)
    ensures SearchValue(s) == Some(v)
  {
    RunHasSixDigits(s, k, v);
    SearchValueSpec(s);
    var w := SearchValue(s).value;
    var k' :| FirstRunAt(s, k', w);
    RunHasSixDigits(s, k', w);
    assert k' == k;
    DigitRunsAgree(s, k, v, w);
  }

  /** What both number-taking patterns return: six to twenty ASCII digits. */
  predicate IsCedula(v: string) {
    MinDigits <= |v| <= MaxDigits && AllDigits(v)
  }

  /** A number found in a text is a cédula-shaped substring of it. */
  lemma SearchValueFound(s: string)
    ensures SearchValue(s).Some? ==> IsCedula(SearchValue(s).value) && Occurs(SearchValue(s).value, s)
  {
    SearchValueSpec(s);
  }

  // ----------------------------------------------------------------- labels

  /** `\s*[:\-]?` matched in full. */
  predicate OptionalMark(r: string) {
    var a := LeadingSpaces(r);
    a == |r| || (a + 1 == |r| && IsLabelMark(r[a]))
  }

  /** `\s*[:\-]?\s*` matched in full. */
  predicate LooseMark(r: string) {
    var a := LeadingSpaces(r);
    a == |r| || (IsLabelMark(r[a]) && AllSpace(r[a + 1..]))
  }

  /** The label test on a stripped cell:
      `re.fullmatch("CC", t, I) or re.fullmatch("CC\s*[:\-]?", t, I)`. */
  predicate IsLabel(t: string) {
    (|t| == 2 && CcAt(t, 0)) || (CcAt(t, 0) && OptionalMark(t[2..]))
  }

  /** The label test of the row fallback: `re.fullmatch("\s*CC\s*[:\-]?\s*", t, I)`. */
  predicate IsLooseLabel(t: string) {
    var a := LeadingSpaces(t);
    CcAt(t, a) && LooseMark(t[a + 2..])
  }

  /** On a stripped cell text the two label tests agree: the extra
      whitespace the fallback's pattern allows cannot occur there. */
  lemma LabelsAgreeOnStripped(s: string)
    ensures IsLooseLabel(Strip(s)) <==> IsLabel(Strip(s))
  {
    StripSpec(s);
    var t := Strip(s);
    assert LeadingSpaces(t) == 0;
    if CcAt(t, 0) {
      var r := t[2..];
      var a := LeadingSpaces(r);
    }
  }

  /** A label cell names "CC". */
  lemma LabelsMentionCc(t: string)
    ensures IsLabel(t) ==> MentionsCc(t)
    ensures IsLooseLabel(t) ==> MentionsCc(t)
  {
    if IsLabel(t) {
      assert CcAt(t, 0);
    }
    if IsLooseLabel(t) {
      assert CcAt(t, LeadingSpaces(t));
    }
  }

  // ----------------------------------------------------------------- inline

  /** `\bCC\b` at `k`: "CC" in either case, with no word character on either side. */
  predicate CcWordAt(s: string, k: int) {
    CcAt(s, k) && (k == 0 || !IsWordChar(s[k - 1])) && (k + 2 == |s| || !IsWordChar(s[k + 2]))
  }

  /** Where `\s*` ends when it starts at `j`. */
  function SpacesEnd(s: string, j: nat): (e: nat)
    requires j <= |s|
    ensures j <= e <= |s|
  {
    j + LeadingSpaces(s[j..])
  }

  /** `\s*` takes every space there is from `j` on, and nothing when none
      stands there. */
  lemma SpacesEndSpec(s: string, j: nat)
    requires j <= |s|
    ensures var e := SpacesEnd(s, j);
      AllSpace(s[j..e]) && (e == |s| || !IsSpace(s[e]))
    ensures j == |s| || !IsSpace(s[j]) ==> SpacesEnd(s, j) == j
  {
    var n := LeadingSpaces(s[j..]);
    assert j < |s| ==> s[j..][0] == s[j];
    assert s[j..j + n] == s[j..][..n];
    assert j + n < |s| ==> s[j + n] == s[j..][n];
  }

  /** Where `\s*[:\-]?\s*` ends when it starts at `j`: every space, at most one
      mark, every space after it. */
  function SeparatorEnd(s: string, j: nat): (e: nat)
    requires j <= |s|
    ensures j <= e <= |s|
  {
    var a := SpacesEnd(s, j);
    var b := if a < |s| && IsLabelMark(s[a]) then a + 1 else a;
    SpacesEnd(s, b)
  }

  /** The separator is spaces with at most one `:` or `-` among them, and it
      takes every space up to the number; when it has taken no mark, no mark
      follows it, since a mark after the spaces is always taken. */
  lemma SeparatorSpec(s: string, j: nat)
    requires j <= |s|
    ensures var e := SeparatorEnd(s, j);
      (e == |s| || !IsSpace(s[e])) &&
      (AllSpace(s[j..e]) ||
       exists m :: j <= m < e && IsLabelMark(s[m]) && AllSpace(s[j..m]) && AllSpace(s[m + 1..e]))
    ensures var e := SeparatorEnd(s, j);
      AllSpace(s[j..e]) ==> e == |s| || !IsLabelMark(s[e])
  {
    var a := SpacesEnd(s, j);
    var e := SeparatorEnd(s, j);
    SpacesEndSpec(s, j);
    var b := if a < |s| && IsLabelMark(s[a]) then a + 1 else a;
    SpacesEndSpec(s, b);
    if a < |s| && IsLabelMark(s[a]) {
      assert AllSpace(s[a + 1..e]);
      assert s[j..e][a - j] == s[a];
      assert !AllSpace(s[j..e]);
    } else {
      assert e == a;
    }
  }

  /** The match of the inline pattern anchored at `k`, and its group. */
  function InlineAt(s: string, k: nat): Option<string>
    requires k <= |s|
  {
    if CcWordAt(s, k) then ValueAt(s, SeparatorEnd(s, k + 2)) else None
  }

  /** `pattern_inline.search`, trying the start positions from `from` on. */
  function InlineFrom(s: string, from: nat): Option<string>
    requires from <= |s|
    decreases |s| - from
  {
    if InlineAt(s, from).Some? then InlineAt(s, from)
    else if from == |s| then None
    else InlineFrom(s, from + 1)
  }

  /** `pattern_inline.search(s).group(1)`, or `None` when nothing matches. */
  function SearchInline(s: string): Option<string> {
    InlineFrom(s, 0)
  }

  /** The inline pattern fits at `k`: a stand-alone "CC" there, and six
      digits right after the separator. */
  ghost predicate InlineFits(s: string, k: int) {
    CcWordAt(s, k) && SixDigitsAt(s, SeparatorEnd(s, k + 2))
  }

  /** `v` is the group of a match anchored at `k`. */
  ghost predicate InlineMatchAt(s: string, k: int, v: string) {
    CcWordAt(s, k) && DigitRunAt(s, SeparatorEnd(s, k + 2), v)
  }

  lemma InlineAtSpec(s: string, k: nat)
    requires k <= |s|
    ensures InlineAt(s, k).Some? <==> InlineFits(s, k)
    ensures InlineAt(s, k).Some? ==> InlineMatchAt(s, k, InlineAt(s, k).value)
  {
    if CcWordAt(s, k) {
      ValueAtSpec(s, SeparatorEnd(s, k + 2));
    }
  }

  lemma {:induction false} InlineFromNone(s: string, from: nat)
    requires from <= |s|
    ensures InlineFrom(s, from).None? <==> forall k :: from <= k ==> !InlineFits(s, k)
    decreases |s| - from
  {
    InlineAtSpec(s, from);
    if InlineAt(s, from).None? && from < |s| {
      InlineFromNone(s, from + 1);
    }
  }

  /** The position where the search from `from` stops: the first anchor
      that matches, or the end of the text. */
  function InlineStart(s: string, from: nat): (k: nat)
    requires from <= |s|
    ensures from <= k <= |s|
    decreases |s| - from
  {
    if InlineAt(s, from).Some? || from == |s| then from else InlineStart(s, from + 1)
  }

  lemma {:induction false} InlineStartSpec(s: string, from: nat)
    requires from <= |s|
    ensures InlineFrom(s, from) == InlineAt(s, InlineStart(s, from))
    ensures forall j :: from <= j < InlineStart(s, from) ==> !InlineFits(s, j)
    decreases |s| - from
  {
    InlineAtSpec(s, from);
    if InlineAt(s, from).None? && from < |s| {
      InlineStartSpec(s, from + 1);
      var k := InlineStart(s, from + 1);
      assert InlineStart(s, from) == k;
      forall j | from <= j < k
        ensures !InlineFits(s, j)
      {
        if j == from {
          assert !InlineFits(s, from);
        } else {
          assert from + 1 <= j < k;
        }
      }
    } else {
      assert InlineStart(s, from) == from;
    }
  }

  lemma InlineFromFound(s: string, from: nat)
    requires from <= |s|
    ensures InlineFrom(s, from).Some? ==>
      exists k :: from <= k && InlineMatchAt(s, k, InlineFrom(s, from).value) &&
        forall j :: from <= j < k ==> !InlineFits(s, j)
  {
    InlineStartSpec(s, from);
    var k := InlineStart(s, from);
    InlineAtSpec(s, k);
  }

  /** The inline pattern finds nothing exactly when it fits nowhere, and
      what it returns is the digit run after the separator at the leftmost
      place it fits: six to twenty digits that follow a stand-alone "CC" and
      an optional `:` or `-` between spaces. With no stand-alone "CC" in the
      text it returns nothing. */
  lemma SearchInlineSpec(s: string)
    ensures SearchInline(s).None? <==> forall k :: !InlineFits(s, k)
    ensures SearchInline(s).Some? ==>
      exists k :: InlineMatchAt(s, k, SearchInline(s).value) &&
        forall j :: 0 <= j < k ==> !InlineFits(s, j)
    ensures (forall k :: !CcWordAt(s, k)) ==> SearchInline(s).None?
  {
    InlineFromNone(s, 0);
    InlineFromFound(s, 0);
  }

  /** "CC" in a stripped text is "CC" in the text. */
  lemma MentionInStripped(s: string)
    requires MentionsCc(Strip(s))
    ensures MentionsCc(s)
  {
    StripSpec(s);
    var r, a := Strip(s), LeadingSpaces(s);
    var k :| CcAt(r, k);
    assert r[k] == s[a + k] && r[k + 1] == s[a + k + 1];
    assert CcAt(s, a + k);
  }

  /** A number found by the inline pattern is a cédula-shaped substring of
      a text that names "CC". */
  lemma SearchInlineFound(s: string)
    ensures SearchInline(s).Some? ==>
      IsCedula(SearchInline(s).value) && Occurs(SearchInline(s).value, s) && MentionsCc(s)
  {
    SearchInlineSpec(s);
    if SearchInline(s).Some? {
      var k :| InlineMatchAt(s, k, SearchInline(s).value);
      assert CcAt(s, k);
    }
  }

  /** "CC" glued to a number is not a stand-alone word: the inline pattern
      finds nothing in "CC" followed directly by digits. */
  lemma InlineRejectsGluedCc(digits: string)
    requires digits != [] && AllDigits(digits)
    ensures SearchInline("CC" + digits) == None
  {
    var s := "CC" + digits;
    forall k | 0 < k
      ensures !CcAt(s, k)
    {
      if k + 1 < |s| {
        assert s[k + 1] == digits[k - 1];
      }
    }
    assert IsWordChar(s[2]);
    SearchInlineSpec(s);
  }

  /** "CC" that ends a longer word is not a stand-alone word either: the
      inline pattern finds nothing in, say, "ACC 1234567". */
  lemma InlineRejectsCcInsideWord(w: char, rest: string)
    requires IsWordChar(w) && !MentionsCc(rest)
    ensures SearchInline([w] + "CC" + rest) == None
  {
    var s := [w] + "CC" + rest;
    forall k | 3 <= k
      ensures !CcAt(s, k)
    {
      if k + 1 < |s| {
        assert s[k] == rest[k - 3] && s[k + 1] == rest[k - 2];
        assert !CcAt(rest, k - 3);
      }
    }
    assert IsWordChar(s[0]) && IsWordChar(s[1]) && IsWordChar(s[2]);
    SearchInlineSpec(s);
  }

  /** A lower-case "cc", a colon and a space before six to twenty digits
      match, and the group is exactly those digits. */
  lemma InlineAcceptsLabelledNumber(digits: string)
    requires MinDigits <= |digits| <= MaxDigits && AllDigits(digits)
    ensures SearchInline("cc: " + digits) == Some(digits)
  {
    var s := "cc: " + digits;
    assert CcWordAt(s, 0);
    assert s[2..] == ": " + digits;
    SpacesEndSpec(s, 2);
    assert SpacesEnd(s, 2) == 2;
    assert s[3..] == " " + digits;
    assert s[4..] == digits;
    assert LeadingSpaces(s[3..]) == 1;
    assert SeparatorEnd(s, 2) == 4;
    assert s[4..4 + MinDigits] == digits[..MinDigits];
    assert SixDigitsAt(s, 4);
    ValueAtSpec(s, 4);
    var v := ValueAt(s, 4).value;
    assert forall i :: 4 <= i < |s| ==> s[i] == digits[i - 4];
    assert |v| == |digits|;
    assert v == s[4..] == digits;
    assert InlineAt(s, 0) == Some(digits);
  }
}
