/**
 The two file-name conventions of the scanned-PDF pairing script
 (`RX_PLAIN` and `RX_S`) and the name of a merged output.
 */
module PdfNames {
  import opened Wrappers
  import opened Text

  /** Which of the two naming conventions a file follows: `<id>.pdf` is the
      plain ("normal") file, `<id> S.pdf` the S file that goes first. */
  datatype Convention = Plain | Secondary

  /** A recognised file: its convention and the identifier it carries. */
  datatype Tagged = Tagged(conv: Convention, id: string)

  /** `RX_PLAIN.match(name)`, i.e. `^(\d+)\.pdf$` ignoring case: the digit group. */
  function MatchPlain(name: string): Option<string> {
    if |name| > 4 && AllDigits(name[..|name| - 4]) && FoldEq(name[|name| - 4..], ".pdf")
    then Some(name[..|name| - 4])
    else None
  }

  /** `RX_S.match(name)`, i.e. `^(\d+)\s+S\.pdf$` ignoring case: the digit group.
      The digits end where the whitespace begins, so the group is the name's
      leading run of digits. */
  function MatchS(name: string): Option<string> {
    if |name| < 5 || !FoldEq(name[|name| - 5..], "S.pdf") then None
    else
      var body := name[..|name| - 5];
      var d := LeadingDigits(body);
      if 0 < d < |body| && AllSpace(body[d..]) then Some(body[..d]) else None
  }

  /** The classification loop of `find_pairs`: the plain pattern is tried
      first and the S pattern only when it fails. */
  function Classify(name: string): Option<Tagged> {
    match MatchPlain(name)
    case Some(id) => Some(Tagged(Plain, id))
    case None =>
      match MatchS(name)
      case Some(id) => Some(Tagged(Secondary, id))
      case None => None
  }

  /** A name is plain with identifier `id` exactly when it is `id` (a non-empty
      run of digits, kept verbatim) followed by ".pdf" in any case. */
  lemma PlainNames(id: string, ext: string)
    ensures MatchPlain(id + ext) == Some(id) <==> |id| > 0 && AllDigits(id) && FoldEq(ext, ".pdf")
  {
    var name := id + ext;
    if MatchPlain(name) == Some(id) {
      assert name[|name| - 4..] == ext;
    }
    if |id| > 0 && AllDigits(id) && FoldEq(ext, ".pdf") {
      assert name[..|name| - 4] == id;
      assert name[|name| - 4..] == ext;
    }
  }

  /** What a successful plain match says about the name. */
  lemma PlainMatchShape(name: string)
    requires MatchPlain(name).Some?
    ensures var id := MatchPlain(name).value;
      |id| > 0 && AllDigits(id) && name == id + name[|id|..] && FoldEq(name[|id|..], ".pdf")
  {
  }

  /** Any digits, any non-empty whitespace run and "S.pdf" in any case make
      an S name whose identifier is the digits, verbatim. */
  lemma {:induction false} SNamesMatch(id: string, ws: string, ext: string)
    requires |id| > 0 && AllDigits(id)
    requires |ws| > 0 && AllSpace(ws)
    requires FoldEq(ext, "S.pdf")
    ensures MatchS(id + ws + ext) == Some(id)
  {
    var name := id + ws + ext;
    var body := name[..|name| - 5];
    assert name[|name| - 5..] == ext;
    assert body == id + ws;
    var d := LeadingDigits(body);
    assert body[|id|] == ws[0];
    assert !IsDigit(body[|id|]);
    assert forall i :: 0 <= i < |id| ==> IsDigit(body[i]);
    assert d == |id|;
    assert body[d..] == ws;
    assert body[..d] == id;
  }

  /** Conversely, an S match splits the name into the identifier, a non-empty
      whitespace run and "S.pdf" in some case. */
  lemma SMatchShape(name: string)
    requires MatchS(name).Some?
    ensures var id := MatchS(name).value;
      var ws := name[|id|..|name| - 5];
      |id| > 0 && AllDigits(id) && |id| < |name| - 5 && |ws| > 0 && AllSpace(ws) &&
      FoldEq(name[|name| - 5..], "S.pdf") && name == id + ws + name[|name| - 5..]
  {
    var id := MatchS(name).value;
    var body := name[..|name| - 5];
    assert body[|id|..] == name[|id|..|name| - 5];
  }

  /** No file name follows both conventions: in a plain name the character
      five from the end is a digit, in an S name it is the marker `S`. */
  lemma {:induction false} ConventionsDisjoint(name: string)
    ensures !(MatchPlain(name).Some? && MatchS(name).Some?)
  {
    if MatchPlain(name).Some? && |name| >= 5 {
      var k := |name| - 5;
      assert name[..|name| - 4][k] == name[k];
      assert IsDigit(name[k]);
      assert Lower(name[|name| - 5..][0]) != Lower("S.pdf"[0]);
    }
  }

  /** The classification agrees with the two patterns: a plain match is always
      tagged plain, and a name is tagged S exactly when it is an S match. */
  lemma ClassifySound(name: string)
    ensures MatchPlain(name).Some? ==> Classify(name) == Some(Tagged(Plain, MatchPlain(name).value))
    ensures MatchS(name).Some? ==> Classify(name) == Some(Tagged(Secondary, MatchS(name).value))
    ensures Classify(name).None? <==> MatchPlain(name).None? && MatchS(name).None?
  {
    ConventionsDisjoint(name);
  }

  /** `42.pdf` and `42   S.pdf` carry the same identifier `42`: both conventions
      keep the digits exactly as written, leading zeros included. */
  lemma {:induction false} SameIdentifier(id: string, ws: string)
    requires |id| > 0 && AllDigits(id) && |ws| > 0 && AllSpace(ws)
    ensures Classify(id + ".pdf") == Some(Tagged(Plain, id))
    ensures Classify(id + ws + "S.pdf") == Some(Tagged(Secondary, id))
  {
    PlainNames(id, ".pdf");
    SNamesMatch(id, ws, "S.pdf");
    ClassifySound(id + ws + "S.pdf");
  }

  /** The name of the merged output for an identifier, `MT-<id>.pdf`. */
  function MergedName(id: string): string { "MT-" + id + ".pdf" }

  /** `out_dir / f"MT-{base}.pdf"`. */
  function OutputPath(outDir: string, id: string): string {
    Join(outDir, MergedName(id))
  }

  /** Distinct identifiers never share an output file. */
  lemma {:induction false} OutputPathInjective(outDir: string, a: string, b: string)
    requires OutputPath(outDir, a) == OutputPath(outDir, b)
    ensures a == b
  {
    JoinInjective(outDir, MergedName(a), MergedName(b));
    var na, nb := MergedName(a), MergedName(b);
    assert na[3..|na| - 4] == a;
    assert nb[3..|nb| - 4] == b;
  }
}
