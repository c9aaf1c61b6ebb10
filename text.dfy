/**
 Character classes and string helpers shared by both scripts, as Python's
 `re` module and `str` methods see them on ASCII text.
 */
module Text {

  /** `[0-9]`, and `\d` below U+0080. */
  predicate IsDigit(c: char) { '0' <= c <= '9' }

  /** `\s` below U+0080, which is also what `str.strip()` removes there:
      TAB, LF, VT, FF, CR, the separators U+001C..U+001F and SPACE. */
  predicate IsSpace(c: char) { 9 <= c as int <= 13 || 28 <= c as int <= 32 }

  /** `\w` below U+0080. */
  predicate IsWordChar(c: char) {
    'a' <= c <= 'z' || 'A' <= c <= 'Z' || IsDigit(c) || c == '_'
  }

  /** ASCII lower-casing, the folding `re.IGNORECASE` applies to ASCII letters. */
  function Lower(c: char): (r: char)
    ensures 'A' <= c <= 'Z' ==> 'a' <= r <= 'z' && r as int == c as int + 32
    ensures !('A' <= c <= 'Z') ==> r == c
  {
    if 'A' <= c <= 'Z' then (c as int + 32) as char else c
  }

  /** Case-insensitive equality of two strings, character by character. */
  predicate FoldEq(s: string, t: string) {
    |s| == |t| && forall i :: 0 <= i < |s| ==> Lower(s[i]) == Lower(t[i])
  }

  predicate AllDigits(s: string) { forall i :: 0 <= i < |s| ==> IsDigit(s[i]) }

  predicate AllSpace(s: string) { forall i :: 0 <= i < |s| ==> IsSpace(s[i]) }

  /** The length of the run of digits `s` starts with. */
  function LeadingDigits(s: string): (n: nat)
    ensures n <= |s| && AllDigits(s[..n])
    ensures n < |s| ==> !IsDigit(s[n])
  {
    if s != [] && IsDigit(s[0]) then 1 + LeadingDigits(s[1..]) else 0
  }

  /** The length of the run of whitespace `s` starts with. */
  function LeadingSpaces(s: string): (n: nat)
    ensures n <= |s| && AllSpace(s[..n])
    ensures n < |s| ==> !IsSpace(s[n])
  {
    if s != [] && IsSpace(s[0]) then 1 + LeadingSpaces(s[1..]) else 0
  }

  /** The length of the run of whitespace `s` ends with. */
  function TrailingSpaces(s: string): (n: nat)
    ensures n <= |s| && AllSpace(s[|s| - n..])
    ensures n < |s| ==> !IsSpace(s[|s| - n - 1])
  {
    if s != [] && IsSpace(s[|s| - 1]) then 1 + TrailingSpaces(s[..|s| - 1]) else 0
  }

  /** `str.strip()`: the text without its leading and trailing whitespace. */
  function Strip(s: string): string {
    var a := LeadingSpaces(s);
    var rest := s[a..];
    rest[..|rest| - TrailingSpaces(rest)]
  }

  /** The stripped text is the middle of the text, the parts cut off are
      whitespace, and the stripped text neither starts nor ends with it. */
  lemma StripSpec(s: string)
    ensures var r := Strip(s);
      LeadingSpaces(s) + |r| <= |s| && r == s[LeadingSpaces(s)..LeadingSpaces(s) + |r|] &&
      AllSpace(s[..LeadingSpaces(s)]) && AllSpace(s[LeadingSpaces(s) + |r|..]) &&
      (r != [] ==> !IsSpace(r[0]) && !IsSpace(r[|r| - 1]))
  {
    var a := LeadingSpaces(s);
    var rest := s[a..];
    var n := TrailingSpaces(rest);
    var r := Strip(s);
    assert r == rest[..|rest| - n];
    assert s[a..a + |r|] == r;
    assert s[a + |r|..] == rest[|rest| - n..];
    if r != [] {
      assert r[0] == s[a];
      assert r[|r| - 1] == rest[|rest| - n - 1];
    }
  }

  /** `v` stands in `s` at position `k`. */
  ghost predicate OccursAt(v: string, s: string, k: int) {
    0 <= k && k + |v| <= |s| && s[k..k + |v|] == v
  }

  /** `v` is a substring of `s`. */
  ghost predicate Occurs(v: string, s: string) {
    exists k :: OccursAt(v, s, k)
  }

  lemma OccursInStripped(v: string, s: string)
    requires Occurs(v, Strip(s))
    ensures Occurs(v, s)
  {
    StripSpec(s);
    var r, a := Strip(s), LeadingSpaces(s);
    var k :| OccursAt(v, r, k);
    assert r == s[a..a + |r|];
    forall i | 0 <= i < |v|
      ensures s[a + k + i] == v[i]
    {
      assert v[i] == r[k + i];
    }
    assert s[a + k..a + k + |v|] == v;
    assert OccursAt(v, s, a + k);
  }

  /** Decimal rendering of a count, as `str(n)`. */
  function Decimal(n: nat): (r: string)
    ensures r != [] && AllDigits(r)
    ensures n < 10 ==> |r| == 1
  {
    if n < 10 then ["0123456789"[n]] else Decimal(n / 10) + ["0123456789"[n % 10]]
  }

  /** The number a string of decimal digits stands for. */
  function DigitsValue(s: string): nat {
    if s == [] then 0
    else
      var c := s[|s| - 1];
      DigitsValue(s[..|s| - 1]) * 10 + (if IsDigit(c) then c as int - '0' as int else 0)
  }

  /** `Decimal(n)` is `str(n)`: its digits read back as `n`, and it has no
      leading zero unless `n` is zero. */
  lemma {:induction false} DecimalReadsBack(n: nat)
    ensures DigitsValue(Decimal(n)) == n
    ensures Decimal(n)[0] == '0' ==> n == 0
    decreases n
  {
    if n >= 10 {
      DecimalReadsBack(n / 10);
      var d, r := Decimal(n / 10), Decimal(n);
      assert r[..|r| - 1] == d;
      assert r[0] == d[0];
    }
  }

  /** `Path(dir) / name` for a resolved directory and a single file name:
      a separator is inserted unless the directory is the root. */
  function Join(dir: string, name: string): (r: string)
    ensures |r| >= |dir| + |name| && r[..|dir|] == dir && r[|r| - |name|..] == name
  {
    if |dir| > 0 && dir[|dir| - 1] == '/' then dir + name else dir + "/" + name
  }

  lemma {:induction false} JoinInjective(dir: string, a: string, b: string)
    requires Join(dir, a) == Join(dir, b)
    ensures a == b
  {
    var ra, rb := Join(dir, a), Join(dir, b);
    var lead := if |dir| > 0 && dir[|dir| - 1] == '/' then |dir| else |dir| + 1;
    assert ra[lead..] == a;
    assert rb[lead..] == b;
  }

  /** The position of the last `.` in `s`, as `str.rfind('.')` (-1 when there is none). */
  function LastDot(s: string): (i: int)
    ensures -1 <= i < |s|
    ensures i >= 0 ==> s[i] == '.'
    ensures forall j :: i < j < |s| ==> s[j] != '.'
  {
    if s == [] then -1
    else if s[|s| - 1] == '.' then |s| - 1
    else LastDot(s[..|s| - 1])
  }

  /** `PurePath.stem`: the name without its last suffix, where a suffix is a
      last `.` that is neither the first nor the last character. */
  function Stem(name: string): string {
    var i := LastDot(name);
    if 0 < i < |name| - 1 then name[..i] else name
  }

  /** The stem of a `*.docx` file name: everything before the extension, except
      for the bare name ".docx", whose dot is its first character. */
  lemma {:induction false} StemOfDocx(base: string)
    ensures Stem(base + ".docx") == if base == [] then ".docx" else base
  {
    var name := base + ".docx";
    assert name[|base|] == '.';
    assert forall j :: |base| < j < |name| ==> name[j] != '.';
    assert LastDot(name) == |base| by {
      assert name[..|name| - 1] == base + ".doc";
      assert name[..|name| - 2] == base + ".do";
      assert name[..|name| - 3] == base + ".d";
      assert name[..|name| - 4] == base + ".";
    }
  }
}
