/**
 The names the Word converter gives its PDFs: LibreOffice writes
 `<stem>.pdf` into the output directory, and the script renames it to
 `MB-<cc>.pdf`, using the document's stem when no cédula number was found.
 */
module WordNaming {
  import opened Wrappers
  import opened Text
  import opened CedulaPatterns
  import opened CedulaSearch

  const TargetPrefix := "MB-"
  const PdfSuffix := ".pdf"

  /** `cc` after `if not cc: cc = docx_file.stem`. */
  function NameKey(cc: Option<string>, docxName: string): string {
    if cc.None? || cc.value == [] then Stem(docxName) else cc.value
  }

  /** `f"MB-{cc}.pdf"` */
  function TargetName(key: string): string {
    TargetPrefix + key + PdfSuffix
  }

  /** `new_name`: the path the converted PDF is renamed to. */
  function TargetPath(outDir: string, cc: Option<string>, docxName: string): string {
    Join(outDir, TargetName(NameKey(cc, docxName)))
  }

  /** `pdf_path = outdir / (docx_path.stem + ".pdf")`: where LibreOffice is
      expected to have written the PDF. */
  function ConvertedPath(outDir: string, docxName: string): string {
    Join(outDir, Stem(docxName) + PdfSuffix)
  }

  /** One pass of the loop in `main` for the document `docxName` (parsed as
      `doc`): extract the number, fall back to the stem, and say which file
      is renamed to which. The LibreOffice run between the two is not part
      of this model. */
  method PlanRename(outDir: string, docxName: string, doc: Document) returns (from: string, to: string)
    ensures from == ConvertedPath(outDir, docxName)
    ensures to == TargetPath(outDir, CcOf(doc), docxName)
  {
    var cc := ExtractCc(doc);
    var key: string;
    if cc.None? || cc.value == [] {
      key := Stem(docxName);
    } else {
      key := cc.value;
    }
    from := Join(outDir, Stem(docxName) + PdfSuffix);
    to := Join(outDir, TargetPrefix + key + PdfSuffix);
  }

  /** Two targets in the same directory coincide exactly when their keys do:
      two documents with the same number, or a document whose stem equals
      another's number, are renamed onto the same file. */
  lemma {:induction false} TargetNameInjective(outDir: string, a: string, b: string)
    ensures Join(outDir, TargetName(a)) == Join(outDir, TargetName(b)) <==> a == b
  {
    if Join(outDir, TargetName(a)) == Join(outDir, TargetName(b)) {
      JoinInjective(outDir, TargetName(a), TargetName(b));
      var na, nb := TargetName(a), TargetName(b);
      assert na[|TargetPrefix|..|na| - |PdfSuffix|] == a;
      assert nb[|TargetPrefix|..|nb| - |PdfSuffix|] == b;
    }
  }

  /** A number found in the document names the PDF, and it is never the
      empty string, so the stem is used only when nothing was found. */
  lemma TargetFromNumber(outDir: string, docxName: string, doc: Document)
    ensures CcOf(doc).Some? ==>
      IsCedula(CcOf(doc).value) &&
      TargetPath(outDir, CcOf(doc), docxName) == Join(outDir, TargetPrefix + CcOf(doc).value + PdfSuffix)
    ensures CcOf(doc).None? ==>
      TargetPath(outDir, CcOf(doc), docxName) == Join(outDir, TargetPrefix + Stem(docxName) + PdfSuffix)
  {
    CcOfSound(doc);
  }

  /** For `<base>.docx` with no number found, the PDF is `MB-<base>.pdf`
      (`MB-.docx.pdf` for the bare name ".docx"). */
  lemma StemFallback(outDir: string, base: string)
    ensures TargetPath(outDir, None, base + ".docx") ==
      Join(outDir, TargetPrefix + (if base == [] then ".docx" else base) + PdfSuffix)
    ensures ConvertedPath(outDir, base + ".docx") ==
      Join(outDir, (if base == [] then ".docx" else base) + PdfSuffix)
  {
    StemOfDocx(base);
  }

  /** The rename leaves the file where it is exactly when the document's
      stem is already `MB-<key>`. */
  lemma RenameInPlace(outDir: string, cc: Option<string>, docxName: string)
    ensures ConvertedPath(outDir, docxName) == TargetPath(outDir, cc, docxName) <==>
      Stem(docxName) == TargetPrefix + NameKey(cc, docxName)
  {
    var converted, target := Stem(docxName) + PdfSuffix, TargetName(NameKey(cc, docxName));
    if Join(outDir, converted) == Join(outDir, target) {
      JoinInjective(outDir, converted, target);
      assert converted[..|converted| - |PdfSuffix|] == Stem(docxName);
      assert target[..|target| - |PdfSuffix|] == TargetPrefix + NameKey(cc, docxName);
    }
  }
}
