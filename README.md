# Scanned-document helpers: PDF pairing and Word renaming, in Dafny

This project models the core of two small Python scripts and proves
properties of that model.

- `merge-pdf/merge-pdf-check.py` scans a directory of PDFs that follow two
  naming conventions: `<id>.pdf`, the plain ("normal") file, and
  `<id> S.pdf`, the S file. It reconciles the identifiers into complete
  pairs and incomplete entries. Each complete pair is merged into
  `MT-<id>.pdf`, S file first, and the run ends by writing `reporte.txt`.
- `word-to-pdf/convert_word_to_pdf.py` looks for a cédula number (CC) in a
  Word document: table cells first, row by row, then the paragraphs. It
  converts the document to PDF and renames the result `MB-<cc>.pdf`. When
  no number is found, it uses the document's stem instead.

Modules:

- `Wrappers`: `Option`.
- `Text`: the character classes of Python's `re` and `str` on ASCII text,
  plus `strip`, path joining and `Path.stem`.
- `PdfNames`: the two file-name patterns and the output name.
- `PdfPairs`: `find_pairs`. A method with the script's two loops is proved
  against the functions `Collected`, `PairsOf` and `MissingOf`.
- `PdfMerge`: the merger object, `merge_pair` and the merge loop. The output
  directory is a map from path to content.
- `PdfReport`: the lines of `reporte.txt`.
- `PdfMain`: one run of `main`.
- `CedulaPatterns`: the number pattern and the inline pattern, each as a
  search over start positions, and the two label tests as full matches.
- `CedulaSearch`: `extract_cc`. Nested loops with early returns are proved
  against a specification built from one first-hit search, `First`.
- `WordNaming`: the converted path and the `MB-` target name.

## Model

| member | source | states |
|---|---|---|
| Text.StripSpec | word-to-pdf/convert_word_to_pdf.py:26 | `strip()` keeps one contiguous slice of the text; what it cuts on either side is all whitespace, and the kept text neither starts nor ends with whitespace |
| Text.DecimalReadsBack | merge-pdf/merge-pdf-check.py:104 | the count in the summary is written as `str(n)`: its digits read back as `n`, with no leading zero unless `n` is zero |
| Text.OccursInStripped | word-to-pdf/convert_word_to_pdf.py:26 | anything found in a stripped cell text also occurs in the cell text itself |
| Text.JoinInjective | merge-pdf/merge-pdf-check.py:71 | `dir / a` and `dir / b` are the same path only when `a == b` |
| Text.StemOfDocx | word-to-pdf/convert_word_to_pdf.py:66 | the stem of `<base>.docx` is `base`; for the bare name `.docx` it is `.docx` itself |
| PdfNames.PlainNames | merge-pdf/merge-pdf-check.py:11 | a name matches `RX_PLAIN` with group `id` iff `id` is a non-empty digit run and the rest is ".pdf" in any case |
| PdfNames.PlainMatchShape | merge-pdf/merge-pdf-check.py:11 | a plain match splits the name into its digit group, kept verbatim, and ".pdf" in some case |
| PdfNames.SNamesMatch | merge-pdf/merge-pdf-check.py:12 | digits, any non-empty whitespace run and "S.pdf" in any case always match `RX_S`, with the digits as the group |
| PdfNames.SMatchShape | merge-pdf/merge-pdf-check.py:12 | an S match splits the name into digits, a non-empty whitespace run and "S.pdf" in some case |
| PdfNames.ConventionsDisjoint | merge-pdf/merge-pdf-check.py:11-12 | no file name matches both patterns |
| PdfNames.ClassifySound | merge-pdf/merge-pdf-check.py:17-20 | the `if`/`elif` classification tags a name plain or S exactly as the patterns match it, and ignores it iff neither matches |
| PdfNames.SameIdentifier | merge-pdf/merge-pdf-check.py:11-20 | `<id>.pdf` and `<id><spaces>S.pdf` carry the same identifier, leading zeros included |
| PdfNames.OutputPathInjective | merge-pdf/merge-pdf-check.py:71 | distinct identifiers never share an `MT-<id>.pdf` output path |
| PdfPairs.CollectedStep | merge-pdf/merge-pdf-check.py:16-20 | one more listed name overwrites its identifier's entry in its convention's dictionary and leaves every other entry alone |
| PdfPairs.CollectedKeys | merge-pdf/merge-pdf-check.py:16-20 | an identifier is in a convention's dictionary iff some listed name of that convention carries it |
| PdfPairs.CollectedIsLastSeen | merge-pdf/merge-pdf-check.py:16-20 | last seen wins: a dictionary entry is the last listed name of that convention carrying the identifier |
| PdfPairs.ReconcilePartition | merge-pdf/merge-pdf-check.py:22-33 | pairs are the identifiers in both dictionaries, pairs and incomplete entries are disjoint and together cover every identifier, and an incomplete entry has exactly one flag set, the one for the dictionary that holds it |
| PdfPairs.FindPairs | merge-pdf/merge-pdf-check.py:14-34 | the two loops of `find_pairs` return exactly the pairs and incomplete entries of the dictionaries the listing builds |
| PdfPairs.FindPairsContents | merge-pdf/merge-pdf-check.py:28 | every pair holds the S file first and the plain file second; both are listed names whose patterns yield the pair's identifier |
| PdfPairs.PairedIffBothConventions | merge-pdf/merge-pdf-check.py:14-34 | an identifier is paired iff names of both conventions carry it, and incomplete iff names of only one do |
| PdfMerge.Merger.constructor | merge-pdf/merge-pdf-check.py:37 | a new merger holds no documents |
| PdfMerge.Merger.Append | merge-pdf/merge-pdf-check.py:39-41 | appending adds the document after those already appended |
| PdfMerge.MergePair | merge-pdf/merge-pdf-check.py:36-45 | the output path then holds the first argument's pages followed by the second's, and no other file changes |
| PdfMerge.OutputPathsCount | merge-pdf/merge-pdf-check.py:70-71 | there are as many output paths as identifiers |
| PdfMerge.OutputPathFresh | merge-pdf/merge-pdf-check.py:71 | an identifier not yet merged has an output path that no merged identifier uses |
| PdfMerge.MergeStep | merge-pdf/merge-pdf-check.py:70-72 | merging one more pair keeps every earlier output and every untouched file as it was |
| PdfMerge.MergeAll | merge-pdf/merge-pdf-check.py:69-73 | after the loop, each pair's `MT-<id>.pdf` holds its S file then its plain file, every other file is as before, and nothing else is written, whatever the visiting order |
| PdfReport.PairLines | merge-pdf/merge-pdf-check.py:88-89 | one `✔ <id> → <S> + <plain>` line per pair, in visiting order |
| PdfReport.MissingLines | merge-pdf/merge-pdf-check.py:93-96 | one `<id>: S.pdf[..]  normal.pdf[..]` line per incomplete entry, in visiting order |
| PdfReport.WritePairLines | merge-pdf/merge-pdf-check.py:88-89 | the loop visits every pair exactly once and writes its line |
| PdfReport.WriteMissingLines | merge-pdf/merge-pdf-check.py:92-96 | the loop visits every incomplete entry exactly once and writes its line |
| PdfReport.WriteReport | merge-pdf/merge-pdf-check.py:83-105 | the report is the timestamp line and the found, incomplete and summary sections, in that order |
| PdfReport.EnumerationLength | merge-pdf/merge-pdf-check.py:88-89 | a visit of every key exactly once has as many steps as there are keys |
| PdfReport.BodyLinesDiffer | merge-pdf/merge-pdf-check.py:87-98 | a line that cannot be a heading, timestamp, pair line or incomplete line is not in the found section, nor in the incomplete section when there are incomplete entries |
| PdfReport.SummaryMessages | merge-pdf/merge-pdf-check.py:100-105 | the summary says "no complete pairs" iff there are none, and never says "no incomplete files" |
| PdfReport.ReportMessages | merge-pdf/merge-pdf-check.py:91-105 | the report says "no complete pairs" iff there are no pairs, and "no incomplete files" iff there are no incomplete entries |
| PdfReport.FoundLayout | merge-pdf/merge-pdf-check.py:84-89 | the report opens with the timestamp line, a blank line and the found heading, followed by exactly one line per pair |
| PdfReport.IncompleteLayout | merge-pdf/merge-pdf-check.py:91-98 | the incomplete section has its heading, then either the single "no incomplete files" line or one line per incomplete entry |
| PdfMain.ReportPathIsNotAnOutput | merge-pdf/merge-pdf-check.py:82 | `reporte.txt` is never one of the `MT-<id>.pdf` outputs |
| PdfMain.ReportAfterMerges | merge-pdf/merge-pdf-check.py:70-83 | writing the report after the merges leaves every merged output in place |
| PdfMain.Run | merge-pdf/merge-pdf-check.py:56-105 | a run produces the pairs and incomplete entries of the listing, writes every merged output and the report into the output directory, and changes nothing else |
| PdfMain.NoMissingIffSameIds | merge-pdf/merge-pdf-check.py:22-33 | there are no incomplete entries iff both conventions carry the same identifiers |
| PdfMain.RunOutcome | merge-pdf/merge-pdf-check.py:70-105 | one output per pair; the report says "no complete pairs" iff no file was merged, and "no incomplete files" iff both conventions carry the same identifiers |
| CedulaPatterns.ValueAtSpec | word-to-pdf/convert_word_to_pdf.py:15 | `[0-9]{6,20}` matches at a position iff six digits stand there; the match is the digit run there, cut to twenty |
| CedulaPatterns.ValueFromSpec | word-to-pdf/convert_word_to_pdf.py:15 | a search from a position finds nothing iff no six digits stand at or after it; otherwise it returns the run at the first position where six digits stand |
| CedulaPatterns.SearchValueSpec | word-to-pdf/convert_word_to_pdf.py:15 | `pattern_value.search` finds nothing iff no six digits stand together; otherwise it returns the leftmost run of six or more digits, cut to twenty |
| CedulaPatterns.DigitRunsAgree | word-to-pdf/convert_word_to_pdf.py:15 | greedy `{6,20}` leaves one possible match at each position |
| CedulaPatterns.FirstRunUnique | word-to-pdf/convert_word_to_pdf.py:15 | conversely, the leftmost maximal run is exactly what the search returns |
| CedulaPatterns.SearchValueFound | word-to-pdf/convert_word_to_pdf.py:15 | a found number is 6 to 20 digits and occurs in the text |
| CedulaPatterns.LabelsAgreeOnStripped | word-to-pdf/convert_word_to_pdf.py:41 | on stripped cell text, the fallback's loose label test and the cell pass's label test agree |
| CedulaPatterns.LabelsMentionCc | word-to-pdf/convert_word_to_pdf.py:28 | a text either label test accepts contains "CC" in some case |
| CedulaPatterns.SpacesEndSpec | word-to-pdf/convert_word_to_pdf.py:17 | `\s*` takes every whitespace character from where it starts, and nothing when none stands there |
| CedulaPatterns.SeparatorSpec | word-to-pdf/convert_word_to_pdf.py:17 | `\s*[:\-]?\s*` covers spaces with at most one `:` or `-` among them, and stops at a non-space; a `:` or `-` right after the leading spaces is always taken |
| CedulaPatterns.InlineAtSpec | word-to-pdf/convert_word_to_pdf.py:17 | the inline pattern matches at a position iff a stand-alone "CC" stands there and six digits follow the separator; the group is the digit run there |
| CedulaPatterns.InlineFromNone | word-to-pdf/convert_word_to_pdf.py:17 | a search from a position finds nothing iff the inline pattern fits nowhere at or after it |
| CedulaPatterns.InlineStartSpec | word-to-pdf/convert_word_to_pdf.py:17 | the search result is the match at the first position where the inline pattern fits, and it fits nowhere before that position |
| CedulaPatterns.InlineFromFound | word-to-pdf/convert_word_to_pdf.py:17 | a search from a position returns the match at the first place the pattern fits |
| CedulaPatterns.SearchInlineSpec | word-to-pdf/convert_word_to_pdf.py:17 | `pattern_inline.search` finds nothing iff the pattern fits nowhere, returns the group of the leftmost fit, and finds nothing in a text without a stand-alone "CC" |
| CedulaPatterns.MentionInStripped | word-to-pdf/convert_word_to_pdf.py:26 | "CC" in a stripped text is "CC" in the text |
| CedulaPatterns.SearchInlineFound | word-to-pdf/convert_word_to_pdf.py:17 | a number found inline is 6 to 20 digits, occurs in the text, and the text contains "CC" |
| CedulaPatterns.InlineRejectsGluedCc | word-to-pdf/convert_word_to_pdf.py:17 | `\b` after "CC": "CC" directly followed by digits never matches |
| CedulaPatterns.InlineRejectsCcInsideWord | word-to-pdf/convert_word_to_pdf.py:17 | `\b` before "CC": "CC" right after a word character, with no other "CC" later, never matches |
| CedulaPatterns.InlineAcceptsLabelledNumber | word-to-pdf/convert_word_to_pdf.py:17 | lower-case "cc: " followed by 6 to 20 digits matches, and the group is exactly those digits |
| CedulaSearch.CellPass | word-to-pdf/convert_word_to_pdf.py:25-38 | the cell loop returns the first cell's hit, where a label cell's hit is its neighbour's number and otherwise the cell's inline match |
| CedulaSearch.RowFallback | word-to-pdf/convert_word_to_pdf.py:40-49 | the fallback runs only in a row with a label cell, and returns the number of its first non-label cell that has one |
| CedulaSearch.UnlabelledNumber | word-to-pdf/convert_word_to_pdf.py:43-49 | the fallback loop skips label cells and returns the first number found |
| CedulaSearch.ExtractCc | word-to-pdf/convert_word_to_pdf.py:9-57 | the nested loops with early returns compute the tables' first hit, row by row, each row's cell pass before its fallback, and otherwise the paragraphs' first inline match |
| CedulaSearch.ValueInCell | word-to-pdf/convert_word_to_pdf.py:31-32 | a number read from a stripped cell is cédula-shaped and occurs in the cell |
| CedulaSearch.InlineInCell | word-to-pdf/convert_word_to_pdf.py:36-38 | an inline match in a stripped cell is cédula-shaped, occurs in the cell, and the cell contains "CC" |
| CedulaSearch.LabelCellMentionsCc | word-to-pdf/convert_word_to_pdf.py:28 | a cell either label test accepts contains "CC" |
| CedulaSearch.CellHitSound | word-to-pdf/convert_word_to_pdf.py:25-38 | a cell's hit is cédula-shaped, the cell contains "CC", and the hit occurs in the cell or its right-hand neighbour |
| CedulaSearch.CellPassSound | word-to-pdf/convert_word_to_pdf.py:25-38 | the cell pass's result is cédula-shaped and occurs in a row that contains "CC" |
| CedulaSearch.FallbackSound | word-to-pdf/convert_word_to_pdf.py:40-49 | the fallback's result is cédula-shaped and occurs in a row that contains "CC" |
| CedulaSearch.RowHitSound | word-to-pdf/convert_word_to_pdf.py:24-49 | a row's result is cédula-shaped and occurs in that row, which contains "CC" |
| CedulaSearch.TableHitSound | word-to-pdf/convert_word_to_pdf.py:23-49 | a table's result is cédula-shaped and comes from one of its rows that contains "CC" |
| CedulaSearch.CcOfSound | word-to-pdf/convert_word_to_pdf.py:9-57 | a returned number is 6 to 20 digits and occurs in a table row or a paragraph that contains "CC" |
| CedulaSearch.NoMentionNoCc | word-to-pdf/convert_word_to_pdf.py:9-57 | a document with no "CC" in any cell or paragraph yields `None` |
| CedulaSearch.TablesAreRowMajor | word-to-pdf/convert_word_to_pdf.py:22-49 | the table search is one search over all rows in row-major order, each row finished, fallback included, before the next row |
| CedulaSearch.TableRowDecides | word-to-pdf/convert_word_to_pdf.py:22-57 | tables take priority: the first row that yields a number decides the result, whatever the paragraphs hold |
| CedulaSearch.ParagraphsWhenTablesSilent | word-to-pdf/convert_word_to_pdf.py:51-57 | when no row yields anything, the first paragraph the inline pattern matches decides, and with none the result is `None` |
| CedulaSearch.LabelNeighbourWins | word-to-pdf/convert_word_to_pdf.py:28-34 | a label cell whose neighbour holds a number gives that number, unless an earlier cell of its row or an earlier row gave one |
| CedulaSearch.NeighbourDecidesRow | word-to-pdf/convert_word_to_pdf.py:28-34 | within a row, such a label cell decides the row when no earlier cell gave anything |
| CedulaSearch.FallbackNeedsLabel | word-to-pdf/convert_word_to_pdf.py:40-49 | the fallback gives a number only in a row with a label cell, and only from the first non-label cell with six digits in a row |
| WordNaming.PlanRename | word-to-pdf/convert_word_to_pdf.py:85-91 | the file renamed is `outdir/<stem>.pdf` and the new name is `outdir/MB-<cc>.pdf`, or `outdir/MB-<stem>.pdf` when no number was found |
| WordNaming.TargetNameInjective | word-to-pdf/convert_word_to_pdf.py:91 | two documents get the same target iff their keys, number or stem, are equal |
| WordNaming.TargetFromNumber | word-to-pdf/convert_word_to_pdf.py:85-91 | a found number is cédula-shaped and names the PDF; with no number the stem names it |
| WordNaming.StemFallback | word-to-pdf/convert_word_to_pdf.py:86-88 | with no number, `<base>.docx` becomes `MB-<base>.pdf`, converted from `<base>.pdf` |
| WordNaming.RenameInPlace | word-to-pdf/convert_word_to_pdf.py:91-92 | the rename leaves the file where it is iff the stem is already `MB-<key>` |

## Left out

- The PDF library (`PdfMerger`, `PdfReader`): a merged file is modelled as the list of documents whose pages it holds, in order. Page content, `strict=False` and file handles are not modelled.
- File-system effects: `glob`, `mkdir`, `open`, `rename`. The directory listing is a parameter (a sequence of names), the output directory is a map from path to content, and `Path.resolve`/`expanduser` are not modelled.
- The order of `glob` results and of dictionary iteration. The listing order is a parameter. The merge and report loops pick their next key arbitrarily, and the report exposes the order it used. Case-sensitivity of `glob("*.pdf")` is not modelled, so every listed name is classified.
- Console output (`print`) and `argparse`.
- `datetime.now().strftime(...)`: the formatted timestamp is a parameter.
- Failure handling: the pairing script has no per-pair error handling. An exception in `merge_pair` ends the run before the report is written. The model follows the code: it has no per-pair failure isolation or success/failure records, and the exception itself is not modelled.
- The Word script's `main` loop over `glob("*.docx")` and its `try`/`except` (lines 82–96). One pass is modelled, as `WordNaming.PlanRename`.
- `convert_docx_to_pdf`'s LibreOffice subprocess and its return-code check. Only the path it returns (line 66) is modelled.
- Word document parsing (`python-docx`): a document is given as its tables, made of rows of cell texts, and its paragraph texts. The `or ""` for a missing text is the empty string.
- Unicode semantics of `\d`, `\s`, `\w`, `\b`, `str.strip` and `re.IGNORECASE` above U+007F. Digits are `0-9`, whitespace is the ASCII whitespace `str.strip` and `\s` recognise (codes 9–13 and 28–32), word characters are `[A-Za-z0-9_]`, and case folding is ASCII.
- Line breaks inside file names. Report lines are the lines the script writes. `\s+` in `RX_S` admits a line break, so an S file name such as `7\nS.pdf` makes one written line span two lines of the file. The layout lemmas speak of written lines.
- `$` in `RX_PLAIN` and `RX_S` also matches just before a final newline. File names ending in a newline are not modelled: the model treats `$` as the end of the name.
