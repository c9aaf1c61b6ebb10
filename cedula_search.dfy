/**
 `extract_cc`: the search for the cédula number in a Word document, seen as
 its tables (rows of cell texts) and its paragraph texts. Tables come first,
 row by row; within a row the cells are tried left to right (a label cell's
 right-hand neighbour, then the inline pattern on the cell itself), and then
 the row's fallback; the paragraphs are tried last.
 */
module CedulaSearch {
  import opened Wrappers
  import opened Text
  import opened CedulaPatterns

  /** The texts of the cells of one table row, in order. */
  type Row = seq<string>
  type Table = seq<Row>

  /** What the search sees of a document: `doc.tables` and `doc.paragraphs`. */
  datatype Document = Document(tables: seq<Table>, paragraphs: seq<string>)

  /** The first of two searches that finds something. */
  function OrElse(first: Option<string>, second: Option<string>): Option<string> {
    if first.Some? then first else second
  }

  // ------------------------------------------------------- first-hit search

  /** What a loop with an early `return` gives when its iterations, from
      `from` on, would yield `hits`: the first result found, else `None`. */
  function First(hits: seq<Option<string>>, from: nat): Option<string>
    decreases |hits| - from
  {
    if from >= |hits| then None else OrElse(hits[from], First(hits, from + 1))
  }

  /** The search finds nothing exactly when no iteration yields anything. */
  lemma {:induction false} FirstNone(hits: seq<Option<string>>, from: nat)
    ensures First(hits, from).None? <==> forall i :: from <= i < |hits| ==> hits[i].None?
    decreases |hits| - from
  {
    if from < |hits| && hits[from].None? {
      FirstNone(hits, from + 1);
    }
  }

  /** What the search finds is what the first yielding iteration yields. */
  lemma {:induction false} FirstFound(hits: seq<Option<string>>, from: nat)
    ensures First(hits, from).Some? ==>
      exists i :: from <= i < |hits| && hits[i] == First(hits, from) &&
        forall j :: from <= j < i ==> hits[j].None?
    decreases |hits| - from
  {
    if from < |hits| {
      if hits[from].Some? {
        assert hits[from] == First(hits, from);
      } else {
        FirstFound(hits, from + 1);
      }
    }
  }

  /** Both halves of the search's meaning. */
  lemma FirstSpec(hits: seq<Option<string>>, from: nat)
    ensures First(hits, from).None? <==> forall i :: from <= i < |hits| ==> hits[i].None?
    ensures First(hits, from).Some? ==>
      exists i :: from <= i < |hits| && hits[i] == First(hits, from) &&
        forall j :: from <= j < i ==> hits[j].None?
  {
    FirstNone(hits, from);
    FirstFound(hits, from);
  }

  /** The first iteration that yields something decides the search. */
  lemma {:induction false} FirstWins(hits: seq<Option<string>>, from: nat, i: nat)
    requires from <= i < |hits| && hits[i].Some?
    requires forall j :: from <= j < i ==> hits[j].None?
    ensures First(hits, from) == hits[i]
    decreases i - from
  {
    if from < i {
      FirstWins(hits, from + 1, i);
    }
  }

  lemma {:induction false} FirstOffset(a: seq<Option<string>>, b: seq<Option<string>>, i: nat)
    requires i <= |b|
    ensures First(a + b, |a| + i) == First(b, i)
    decreases |b| - i
  {
    if i < |b| {
      assert (a + b)[|a| + i] == b[i];
      FirstOffset(a, b, i + 1);
    }
  }

  /** Searching two stretches one after the other. */
  lemma {:induction false} FirstAppend(a: seq<Option<string>>, b: seq<Option<string>>, from: nat)
    requires from <= |a|
    ensures First(a + b, from) == OrElse(First(a, from), First(b, 0))
    decreases |a| - from
  {
    if from < |a| {
      assert (a + b)[from] == a[from];
      FirstAppend(a, b, from + 1);
    } else {
      FirstOffset(a, b, 0);
    }
  }

  // ------------------------------------------------------ the specification

  /** For a label cell, the number in its right-hand neighbour. */
  function NeighbourValue(cells: Row, idx: nat): Option<string>
    requires idx < |cells|
  {
    if IsLabel(Strip(cells[idx])) && idx + 1 < |cells| then SearchValue(Strip(cells[idx + 1])) else None
  }

  /** What the cell at `idx` yields in the cell pass. */
  function CellHit(cells: Row, idx: nat): Option<string>
    requires idx < |cells|
  {
    OrElse(NeighbourValue(cells, idx), SearchInline(Strip(cells[idx])))
  }

  function CellHits(cells: Row): seq<Option<string>> {
    seq(|cells|, idx requires 0 <= idx < |cells| => CellHit(cells, idx))
  }

  /** `has_cc_label`: some cell of the row is a label for the fallback's test. */
  predicate HasLabel(cells: Row) {
    exists i | 0 <= i < |cells| :: IsLooseLabel(Strip(cells[i]))
  }

  /** What the cell at `idx` yields in the fallback: its number, unless it is a label. */
  function FallbackHit(cells: Row, idx: nat): Option<string>
    requires idx < |cells|
  {
    var t := Strip(cells[idx]);
    if IsLooseLabel(t) then None else SearchValue(t)
  }

  function FallbackHits(cells: Row): seq<Option<string>> {
    seq(|cells|, idx requires 0 <= idx < |cells| => FallbackHit(cells, idx))
  }

  /** The row fallback, which runs only in a row with a label cell. */
  function Fallback(cells: Row): Option<string> {
    if HasLabel(cells) then First(FallbackHits(cells), 0) else None
  }

  /** What one row yields: its cell pass, then its fallback. */
  function RowHit(cells: Row): Option<string> {
    OrElse(First(CellHits(cells), 0), Fallback(cells))
  }

  /** What each of a sequence of rows yields, one entry per row. */
  function RowHits(rows: seq<Row>): seq<Option<string>> {
    Each(RowHit, rows)
  }

  /** `f` applied to every element of `xs`, in order. */
  function Each<T>(f: T -> Option<string>, xs: seq<T>): (r: seq<Option<string>>)
    ensures |r| == |xs| && forall i :: 0 <= i < |xs| ==> r[i] == f(xs[i])
  {
    seq(|xs|, i requires 0 <= i < |xs| => f(xs[i]))
  }

  /** Mapping a concatenation maps each part. */
  lemma EachAppend<T>(f: T -> Option<string>, a: seq<T>, b: seq<T>)
    ensures Each(f, a + b) == Each(f, a) + Each(f, b)
  {
    var hits := Each(f, a + b);
    forall r | 0 <= r < |hits|
      ensures hits[r] == (Each(f, a) + Each(f, b))[r]
    {
      if r < |a| {
        assert (a + b)[r] == a[r];
      } else {
        assert (a + b)[r] == b[r - |a|];
      }
    }
  }

  /** What one table yields: its rows in order. */
  function TableHit(table: Table): Option<string> {
    First(RowHits(table), 0)
  }

  function TableHits(tables: seq<Table>): seq<Option<string>> {
    seq(|tables|, t requires 0 <= t < |tables| => TableHit(tables[t]))
  }

  /** What the paragraphs yield, each searched with the inline pattern. */
  function ParagraphHits(paragraphs: seq<string>): seq<Option<string>> {
    seq(|paragraphs|, p requires 0 <= p < |paragraphs| => SearchInline(paragraphs[p]))
  }

  /** The value `extract_cc` returns: the tables' first hit, else the paragraphs'. */
  function CcOf(doc: Document): Option<string> {
    OrElse(First(TableHits(doc.tables), 0), First(ParagraphHits(doc.paragraphs), 0))
  }

  // ------------------------------------------------------------ the method

  /** The loop over the cells of one row in `extract_cc`: a label cell's
      right-hand neighbour, then the inline pattern on the cell itself. */
  method CellPass(cells: Row) returns (hit: Option<string>)
    ensures hit == First(CellHits(cells), 0)
  {
    for idx := 0 to |cells|
      invariant First(CellHits(cells), 0) == First(CellHits(cells), idx)
    {
      var text := Strip(cells[idx]);
      if IsLabel(text) {
        if idx + 1 < |cells| {
          var nextText := Strip(cells[idx + 1]);
          var value := SearchValue(nextText);
          if value.Some? {
            assert CellHits(cells)[idx] == value;
            return value;
          }
        }
      }
      var inline := SearchInline(text);
      if inline.Some? {
        assert CellHits(cells)[idx] == inline;
        return inline;
      }
      assert CellHits(cells)[idx] == None;
    }
    return None;
  }

  /** The row fallback in `extract_cc`: in a row with a label cell, the
      first number in a cell that is not a label. */
  method RowFallback(cells: Row) returns (hit: Option<string>)
    ensures hit == Fallback(cells)
  {
    hit := None;
    if HasLabel(cells) {
      hit := UnlabelledNumber(cells);
    }
  }

  /** The loop of the row fallback: label cells are skipped, and the first
      cell holding six or more digits gives its first run. */
  method UnlabelledNumber(cells: Row) returns (hit: Option<string>)
    ensures hit == First(FallbackHits(cells), 0)
  {
    for i := 0 to |cells|
      invariant First(FallbackHits(cells), 0) == First(FallbackHits(cells), i)
    {
      var cellText := Strip(cells[i]);
      var value := None;
      if !IsLooseLabel(cellText) {
        value := SearchValue(cellText);
      }
      assert FallbackHits(cells)[i] == value;
      if value.Some? {
        return value;
      }
    }
    return None;
  }

  /** `extract_cc` on a parsed document. */
  method ExtractCc(doc: Document) returns (cc: Option<string>)
    ensures cc == CcOf(doc)
  {
    var tables := doc.tables;
    for t := 0 to |tables|
      invariant First(TableHits(tables), 0) == First(TableHits(tables), t)
    {
      var rows := tables[t];
      for r := 0 to |rows|
        invariant First(RowHits(rows), 0) == First(RowHits(rows), r)
      {
        var cells := rows[r];
        var hit := CellPass(cells);
        if hit.None? {
          hit := RowFallback(cells);
        }
        assert RowHits(rows)[r] == hit;
        if hit.Some? {
          assert TableHits(tables)[t] == hit;
          return hit;
        }
      }
      assert TableHits(tables)[t] == None;
    }
    var paragraphs := doc.paragraphs;
    for p := 0 to |paragraphs|
      invariant First(ParagraphHits(paragraphs), 0) == First(ParagraphHits(paragraphs), p)
    {
      var m := SearchInline(paragraphs[p]);
      if m.Some? {
        assert ParagraphHits(paragraphs)[p] == m;
        return m;
      }
      assert ParagraphHits(paragraphs)[p] == None;
    }
    return None;
  }

  // ------------------------------------------------- what the result can be

  /** `v` occurs in a cell of the row and some cell of the row names "CC". */
  ghost predicate RowWitness(v: string, cells: Row) {
    (exists c :: 0 <= c < |cells| && Occurs(v, cells[c])) &&
    (exists c :: 0 <= c < |cells| && MentionsCc(cells[c]))
  }

  /** `v` occurs in a table row that names "CC". */
  ghost predicate TableWitness(v: string, tables: seq<Table>) {
    exists t, r :: 0 <= t < |tables| && 0 <= r < |tables[t]| && RowWitness(v, tables[t][r])
  }

  /** `v` occurs in a paragraph that names "CC". */
  ghost predicate ParagraphWitness(v: string, paragraphs: seq<string>) {
    exists p :: 0 <= p < |paragraphs| && Occurs(v, paragraphs[p]) && MentionsCc(paragraphs[p])
  }

  /** Some cell or paragraph of the document names "CC". */
  ghost predicate DocumentMentionsCc(doc: Document) {
    (exists t, r, c :: 0 <= t < |doc.tables| && 0 <= r < |doc.tables[t]| && 0 <= c < |doc.tables[t][r]| &&
       MentionsCc(doc.tables[t][r][c])) ||
    (exists p :: 0 <= p < |doc.paragraphs| && MentionsCc(doc.paragraphs[p]))
  }

  /** A number read from a stripped cell occurs in the cell. */
  lemma ValueInCell(cell: string)
    ensures SearchValue(Strip(cell)).Some? ==>
      IsCedula(SearchValue(Strip(cell)).value) && Occurs(SearchValue(Strip(cell)).value, cell)
  {
    SearchValueFound(Strip(cell));
    if SearchValue(Strip(cell)).Some? {
      OccursInStripped(SearchValue(Strip(cell)).value, cell);
    }
  }

  /** A number the inline pattern reads from a stripped cell occurs in the
      cell, and the cell names "CC". */
  lemma InlineInCell(cell: string)
    ensures SearchInline(Strip(cell)).Some? ==>
      IsCedula(SearchInline(Strip(cell)).value) && Occurs(SearchInline(Strip(cell)).value, cell) &&
      MentionsCc(cell)
  {
    SearchInlineFound(Strip(cell));
    if SearchInline(Strip(cell)).Some? {
      OccursInStripped(SearchInline(Strip(cell)).value, cell);
      MentionInStripped(cell);
    }
  }

  /** A cell that passes either label test names "CC". */
  lemma LabelCellMentionsCc(cell: string)
    ensures IsLabel(Strip(cell)) || IsLooseLabel(Strip(cell)) ==> MentionsCc(cell)
  {
    LabelsMentionCc(Strip(cell));
    if IsLabel(Strip(cell)) || IsLooseLabel(Strip(cell)) {
      MentionInStripped(cell);
    }
  }

  /** What a cell yields in the cell pass is a number read from that cell
      or its right-hand neighbour, and the cell names "CC". */
  lemma CellHitSound(cells: Row, idx: nat)
    requires idx < |cells|
    ensures CellHit(cells, idx).Some? ==>
      IsCedula(CellHit(cells, idx).value) && MentionsCc(cells[idx]) &&
      (Occurs(CellHit(cells, idx).value, cells[idx]) ||
       (idx + 1 < |cells| && Occurs(CellHit(cells, idx).value, cells[idx + 1])))
  {
    LabelCellMentionsCc(cells[idx]);
    InlineInCell(cells[idx]);
    if idx + 1 < |cells| {
      ValueInCell(cells[idx + 1]);
    }
  }

  /** What the cell pass of a row yields is a number read from the row, in a
      row that names "CC". */
  lemma CellPassSound(cells: Row)
    ensures First(CellHits(cells), 0).Some? ==>
      IsCedula(First(CellHits(cells), 0).value) && RowWitness(First(CellHits(cells), 0).value, cells)
  {
    var hits := CellHits(cells);
    FirstSpec(hits, 0);
    if First(hits, 0).Some? {
      var i :| 0 <= i < |hits| && hits[i] == First(hits, 0);
      assert hits[i] == CellHit(cells, i);
      CellHitSound(cells, i);
    }
  }

  /** What the fallback of a row yields is a number read from one of its
      cells, in a row that names "CC". */
  lemma FallbackSound(cells: Row)
    ensures Fallback(cells).Some? ==> IsCedula(Fallback(cells).value) && RowWitness(Fallback(cells).value, cells)
  {
    var backups := FallbackHits(cells);
    FirstSpec(backups, 0);
    if Fallback(cells).Some? {
      var i :| 0 <= i < |backups| && backups[i] == First(backups, 0);
      assert backups[i] == FallbackHit(cells, i);
      ValueInCell(cells[i]);
      var l :| 0 <= l < |cells| && IsLooseLabel(Strip(cells[l]));
      LabelCellMentionsCc(cells[l]);
    }
  }

  /** What a row yields is a number read from one of its cells, in a row
      that names "CC". */
  lemma RowHitSound(cells: Row)
    ensures RowHit(cells).Some? ==> IsCedula(RowHit(cells).value) && RowWitness(RowHit(cells).value, cells)
  {
    CellPassSound(cells);
    FallbackSound(cells);
  }

  lemma TableHitSound(table: Table)
    ensures TableHit(table).Some? ==>
      IsCedula(TableHit(table).value) && exists r :: 0 <= r < |table| && RowWitness(TableHit(table).value, table[r])
  {
    FirstSpec(RowHits(table), 0);
    if TableHit(table).Some? {
      var r :| 0 <= r < |table| && RowHits(table)[r] == TableHit(table);
      RowHitSound(table[r]);
    }
  }

  /** Whatever `extract_cc` returns is six to twenty ASCII digits that occur
      in a cell of a table row naming "CC", or in a paragraph naming "CC". */
  lemma CcOfSound(doc: Document)
    ensures CcOf(doc).Some? ==>
      IsCedula(CcOf(doc).value) &&
      (TableWitness(CcOf(doc).value, doc.tables) || ParagraphWitness(CcOf(doc).value, doc.paragraphs))
  {
    var tableHits, paragraphHits := TableHits(doc.tables), ParagraphHits(doc.paragraphs);
    FirstSpec(tableHits, 0);
    FirstSpec(paragraphHits, 0);
    if First(tableHits, 0).Some? {
      var t :| 0 <= t < |tableHits| && tableHits[t] == First(tableHits, 0);
      TableHitSound(doc.tables[t]);
    } else if First(paragraphHits, 0).Some? {
      var p :| 0 <= p < |paragraphHits| && paragraphHits[p] == First(paragraphHits, 0);
      SearchInlineFound(doc.paragraphs[p]);
    }
  }

  /** A document in which no cell and no paragraph contains "CC", in any
      case, yields no number. */
  lemma NoMentionNoCc(doc: Document)
    ensures !DocumentMentionsCc(doc) ==> CcOf(doc) == None
  {
    CcOfSound(doc);
    if CcOf(doc).Some? {
      var v := CcOf(doc).value;
      if TableWitness(v, doc.tables) {
        var t, r :| 0 <= t < |doc.tables| && 0 <= r < |doc.tables[t]| && RowWitness(v, doc.tables[t][r]);
        var c :| 0 <= c < |doc.tables[t][r]| && MentionsCc(doc.tables[t][r][c]);
        assert DocumentMentionsCc(doc);
      }
    }
  }

  // ------------------------------------------------------- the search order

  /** The rows of all tables, table after table: the order the loops visit them in. */
  function Flatten(tables: seq<Table>): seq<Row> {
    if tables == [] then [] else tables[0] + Flatten(tables[1..])
  }

  lemma {:induction false} FirstDrop(hits: seq<Option<string>>, from: nat)
    requires from <= |hits|
    ensures First(hits, from) == First(hits[from..], 0)
  {
    FirstOffset(hits[..from], hits[from..], 0);
    assert hits[..from] + hits[from..] == hits;
  }

  lemma RowHitsAppend(a: seq<Row>, b: seq<Row>)
    ensures RowHits(a + b) == RowHits(a) + RowHits(b)
  {
    EachAppend(RowHit, a, b);
  }

  lemma TableHitsDrop(tables: seq<Table>)
    requires tables != []
    ensures TableHits(tables)[1..] == TableHits(tables[1..])
  {
    assert forall t :: 0 <= t < |tables| - 1 ==> TableHits(tables)[1..][t] == TableHits(tables[1..])[t];
  }

  /** The table search is one search over the rows of all tables in
      row-major order: a row, fallback included, is done with before the
      next row is tried. */
  lemma {:induction false} TablesAreRowMajor(tables: seq<Table>)
    ensures First(TableHits(tables), 0) == First(RowHits(Flatten(tables)), 0)
    decreases |tables|
  {
    if tables != [] {
      var rest := tables[1..];
      TablesAreRowMajor(rest);
      FirstDrop(TableHits(tables), 1);
      TableHitsDrop(tables);
      RowHitsAppend(tables[0], Flatten(rest));
      FirstAppend(RowHits(tables[0]), RowHits(Flatten(rest)), 0);
    }
  }

  /** Tables take priority: once a table row yields a number, in row-major
      order, that number is the result, whatever the paragraphs say. */
  lemma TableRowDecides(doc: Document, r: nat)
    requires r < |Flatten(doc.tables)| && RowHit(Flatten(doc.tables)[r]).Some?
    requires forall q :: 0 <= q < r ==> RowHit(Flatten(doc.tables)[q]).None?
    ensures CcOf(doc) == RowHit(Flatten(doc.tables)[r])
  {
    TablesAreRowMajor(doc.tables);
    FirstWins(RowHits(Flatten(doc.tables)), 0, r);
  }

  /** The paragraphs are searched only when no table row yields anything;
      then the first paragraph the inline pattern matches decides, and with
      no such paragraph the result is `None`. */
  lemma ParagraphsWhenTablesSilent(doc: Document)
    requires forall r :: 0 <= r < |Flatten(doc.tables)| ==> RowHit(Flatten(doc.tables)[r]).None?
    ensures forall p ::
      (0 <= p < |doc.paragraphs| && SearchInline(doc.paragraphs[p]).Some? &&
       forall q :: 0 <= q < p ==> SearchInline(doc.paragraphs[q]).None?) ==>
      CcOf(doc) == SearchInline(doc.paragraphs[p])
    ensures (forall p :: 0 <= p < |doc.paragraphs| ==> SearchInline(doc.paragraphs[p]).None?) ==>
      CcOf(doc) == None
  {
    TablesAreRowMajor(doc.tables);
    FirstSpec(RowHits(Flatten(doc.tables)), 0);
    var paragraphHits := ParagraphHits(doc.paragraphs);
    forall p | 0 <= p < |doc.paragraphs| && SearchInline(doc.paragraphs[p]).Some? &&
      (forall q :: 0 <= q < p ==> SearchInline(doc.paragraphs[q]).None?)
      ensures CcOf(doc) == SearchInline(doc.paragraphs[p])
    {
      FirstWins(paragraphHits, 0, p);
    }
    FirstSpec(paragraphHits, 0);
  }

  /** A label cell ("CC", "cc:", "CC -", ...) whose right-hand neighbour
      holds six or more digits gives that neighbour's first run, unless an
      earlier cell of its row or an earlier row already gave a number. */
  lemma LabelNeighbourWins(doc: Document, r: nat, idx: nat)
    requires r < |Flatten(doc.tables)|
    requires forall q :: 0 <= q < r ==> RowHit(Flatten(doc.tables)[q]).None?
    requires idx + 1 < |Flatten(doc.tables)[r]| && IsLabel(Strip(Flatten(doc.tables)[r][idx]))
    requires SearchValue(Strip(Flatten(doc.tables)[r][idx + 1])).Some?
    requires forall j :: 0 <= j < idx ==> CellHit(Flatten(doc.tables)[r], j).None?
    ensures CcOf(doc) == SearchValue(Strip(Flatten(doc.tables)[r][idx + 1]))
  {
    NeighbourDecidesRow(Flatten(doc.tables)[r], idx);
    TableRowDecides(doc, r);
  }

  /** Within one row: a label cell whose neighbour holds a number decides
      the row when no earlier cell gave anything. */
  lemma NeighbourDecidesRow(cells: Row, idx: nat)
    requires idx + 1 < |cells| && IsLabel(Strip(cells[idx]))
    requires SearchValue(Strip(cells[idx + 1])).Some?
    requires forall j :: 0 <= j < idx ==> CellHit(cells, j).None?
    ensures RowHit(cells) == SearchValue(Strip(cells[idx + 1]))
  {
    var hits := CellHits(cells);
    assert hits[idx] == SearchValue(Strip(cells[idx + 1]));
    FirstWins(hits, 0, idx);
  }

  /** The fallback of a row gives a number only in a row with a label cell,
      and only from a cell that neither label test accepts: the first such
      cell with six digits in a row. */
  lemma FallbackNeedsLabel(cells: Row)
    ensures Fallback(cells).Some? ==>
      (exists l :: 0 <= l < |cells| && IsLabel(Strip(cells[l]))) &&
      exists i :: 0 <= i < |cells| && !IsLabel(Strip(cells[i])) && !IsLooseLabel(Strip(cells[i])) &&
        SearchValue(Strip(cells[i])) == Fallback(cells) &&
        forall j :: 0 <= j < i ==> FallbackHit(cells, j).None?
  {
    var backups := FallbackHits(cells);
    FirstSpec(backups, 0);
    if Fallback(cells).Some? {
      var l :| 0 <= l < |cells| && IsLooseLabel(Strip(cells[l]));
      LabelsAgreeOnStripped(cells[l]);
      var i :| 0 <= i < |backups| && backups[i] == First(backups, 0) &&
        forall j :: 0 <= j < i ==> backups[j].None?;
      assert backups[i] == FallbackHit(cells, i);
      LabelsAgreeOnStripped(cells[i]);
      forall j | 0 <= j < i
        ensures FallbackHit(cells, j).None?
      {
        assert backups[j] == FallbackHit(cells, j);
      }
    }
  }
}
