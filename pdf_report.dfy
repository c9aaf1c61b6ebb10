/**
 `reporte.txt`, the report the pairing script writes into the output
 directory. The file is modelled as the sequence of lines the script writes, each
 followed by a newline; a written line holds a line break of its own only
 when a listed file name does. The dictionaries are iterated in an unspecified
 order; the order actually used is returned beside the lines.
 */
module PdfReport {
  import opened Text
  import opened PdfPairs

  const FoundHeading := "=== ARCHIVOS ENCONTRADOS ==="
  const IncompleteHeading := "=== ARCHIVOS INCOMPLETOS ==="
  const SummaryHeading := "=== RESUMEN ==="
  const Check := '\U{2714}'
  const Cross := '\U{2717}'
  const Arrow := '\U{2192}'
  const Warning := '\U{26A0}'
  const NoPairsMessage := [Warning] + " No se encontraron pares completos para unir."
  const NoMissingMessage := "No hay archivos incompletos."
  const ReportName := "reporte.txt"

  /** `✔` for a present file, `✗` for an absent one. */
  function Mark(present: bool): string {
    if present then [Check] else [Cross]
  }

  /** `✔ <id> → <S name> + <plain name>`. */
  function PairLine(id: string, p: Pair): string {
    [Check] + " " + id + " " + [Arrow] + " " + p.sFile + " + " + p.plainFile
  }

  /** `<id>: S.pdf[✔|✗]  normal.pdf[✔|✗]`. */
  function MissingLine(id: string, info: Presence): string {
    id + ": S.pdf[" + Mark(info.hasS) + "]  normal.pdf[" + Mark(info.hasPlain) + "]"
  }

  /** `order` lists every key of a dictionary exactly once. */
  ghost predicate Enumerates(order: seq<string>, keys: set<string>) {
    (forall i :: 0 <= i < |order| ==> order[i] in keys) &&
    (forall k :: k in keys ==> k in order) &&
    (forall i, j :: 0 <= i < j < |order| ==> order[i] != order[j])
  }

  function PairLines(pairs: map<string, Pair>, order: seq<string>): (lines: seq<string>)
    requires forall i :: 0 <= i < |order| ==> order[i] in pairs
    ensures |lines| == |order|
    ensures forall i :: 0 <= i < |order| ==> lines[i] == PairLine(order[i], pairs[order[i]])
  {
    if order == [] then [] else PairLines(pairs, order[..|order| - 1]) + [PairLine(order[|order| - 1], pairs[order[|order| - 1]])]
  }

  function MissingLines(missing: map<string, Presence>, order: seq<string>): (lines: seq<string>)
    requires forall i :: 0 <= i < |order| ==> order[i] in missing
    ensures |lines| == |order|
    ensures forall i :: 0 <= i < |order| ==> lines[i] == MissingLine(order[i], missing[order[i]])
  {
    if order == [] then [] else MissingLines(missing, order[..|order| - 1]) + [MissingLine(order[|order| - 1], missing[order[|order| - 1]])]
  }

  /** The "RESUMEN" section's body. */
  function Summary(pairCount: nat, outDir: string): seq<string> {
    if pairCount == 0 then [NoPairsMessage]
    else ["Archivos generados: " + Decimal(pairCount), "Ruta de salida: " + outDir]
  }

  /** The timestamp line, a blank line and the found section. */
  function FoundSection(now: string, pairs: map<string, Pair>, pairOrder: seq<string>): seq<string>
    requires forall i :: 0 <= i < |pairOrder| ==> pairOrder[i] in pairs
  {
    ["Reporte generado: " + now, "", FoundHeading] + PairLines(pairs, pairOrder)
  }

  /** The incomplete section, led by a blank line. */
  function IncompleteSection(missing: map<string, Presence>, missingOrder: seq<string>): seq<string>
    requires forall i :: 0 <= i < |missingOrder| ==> missingOrder[i] in missing
  {
    ["", IncompleteHeading] + (if |missing| == 0 then [NoMissingMessage] else MissingLines(missing, missingOrder))
  }

  /** The summary section, led by a blank line. */
  function SummarySection(pairCount: nat, outDir: string): seq<string> {
    ["", SummaryHeading] + Summary(pairCount, outDir)
  }

  /** The whole report for the timestamp text `now`, with the dictionaries
      visited in the orders `pairOrder` and `missingOrder`. */
  function ReportLines(now: string, pairs: map<string, Pair>, missing: map<string, Presence>, outDir: string,
                       pairOrder: seq<string>, missingOrder: seq<string>): seq<string>
    requires forall i :: 0 <= i < |pairOrder| ==> pairOrder[i] in pairs
    requires forall i :: 0 <= i < |missingOrder| ==> missingOrder[i] in missing
  {
    FoundSection(now, pairs, pairOrder) + IncompleteSection(missing, missingOrder) + SummarySection(|pairs|, outDir)
  }

  /** The loop writing one line per complete pair, in dictionary order. */
  method WritePairLines(pairs: map<string, Pair>) returns (lines: seq<string>, ghost order: seq<string>)
    ensures Enumerates(order, pairs.Keys)
    ensures lines == PairLines(pairs, order)
  {
    lines, order := [], [];
    var rest := pairs.Keys;
    while rest != {}
      invariant rest <= pairs.Keys
      invariant forall i :: 0 <= i < |order| ==> order[i] in pairs.Keys - rest
      invariant forall k :: k in pairs.Keys - rest ==> k in order
      invariant forall i, j :: 0 <= i < j < |order| ==> order[i] != order[j]
      invariant lines == PairLines(pairs, order)
      decreases rest
    {
      var base :| base in rest;
      lines := lines + [PairLine(base, pairs[base])];
      assert (order + [base])[..|order|] == order;
      order := order + [base];
      rest := rest - {base};
    }
  }

  /** The loop writing one line per incomplete identifier, in dictionary order. */
  method WriteMissingLines(missing: map<string, Presence>) returns (lines: seq<string>, ghost order: seq<string>)
    ensures Enumerates(order, missing.Keys)
    ensures lines == MissingLines(missing, order)
  {
    lines, order := [], [];
    var rest := missing.Keys;
    while rest != {}
      invariant rest <= missing.Keys
      invariant forall i :: 0 <= i < |order| ==> order[i] in missing.Keys - rest
      invariant forall k :: k in missing.Keys - rest ==> k in order
      invariant forall i, j :: 0 <= i < j < |order| ==> order[i] != order[j]
      invariant lines == MissingLines(missing, order)
      decreases rest
    {
      var base :| base in rest;
      lines := lines + [MissingLine(base, missing[base])];
      assert (order + [base])[..|order|] == order;
      order := order + [base];
      rest := rest - {base};
    }
  }

  /** The report-writing block of `main`. */
  method WriteReport(now: string, pairs: map<string, Pair>, missing: map<string, Presence>, outDir: string)
    returns (lines: seq<string>, ghost pairOrder: seq<string>, ghost missingOrder: seq<string>)
    ensures Enumerates(pairOrder, pairs.Keys) && Enumerates(missingOrder, missing.Keys)
    ensures lines == ReportLines(now, pairs, missing, outDir, pairOrder, missingOrder)
  {
    var found;
    found, pairOrder := WritePairLines(pairs);
    lines := ["Reporte generado: " + now, "", FoundHeading] + found;

    var incomplete := [NoMissingMessage];
    missingOrder := [];
    if |missing| != 0 {
      incomplete, missingOrder := WriteMissingLines(missing);
    } else {
      assert Enumerates(missingOrder, missing.Keys);
    }
    lines := lines + (["", IncompleteHeading] + incomplete);

    var summary;
    if |pairs| == 0 {
      summary := [NoPairsMessage];
    } else {
      summary := ["Archivos generados: " + Decimal(|pairs|), "Ruta de salida: " + outDir];
    }
    lines := lines + (["", SummaryHeading] + summary);
  }

  /** An enumeration of a dictionary's keys has one entry per key. */
  lemma {:induction false} EnumerationLength(order: seq<string>, keys: set<string>)
    requires Enumerates(order, keys)
    ensures |order| == |keys|
  {
    if order != [] {
      var last := order[|order| - 1];
      var init := order[..|order| - 1];
      assert Enumerates(init, keys - {last}) by {
        forall k | k in keys - {last}
          ensures k in init
        {
          var i :| 0 <= i < |order| && order[i] == k;
          assert i < |init| && init[i] == k;
        }
      }
      EnumerationLength(init, keys - {last});
    }
  }

  /** No line of the found and incomplete sections is `line`, when `line`
      starts with none of `R`, `=` and `✔` and does not end with `]`. */
  lemma BodyLinesDiffer(now: string, pairs: map<string, Pair>, missing: map<string, Presence>,
                        pairOrder: seq<string>, missingOrder: seq<string>, line: string)
    requires forall i :: 0 <= i < |pairOrder| ==> pairOrder[i] in pairs
    requires forall i :: 0 <= i < |missingOrder| ==> missingOrder[i] in missing
    requires line != [] && line[0] != 'R' && line[0] != '=' && line[0] != Check && line[|line| - 1] != ']'
    ensures line !in FoundSection(now, pairs, pairOrder)
    ensures |missing| != 0 ==> line !in IncompleteSection(missing, missingOrder)
  {
    var found := PairLines(pairs, pairOrder);
    forall i | 0 <= i < |pairOrder|
      ensures found[i] != line
    {
      assert found[i][0] == Check;
    }
    var incomplete := MissingLines(missing, missingOrder);
    forall i | 0 <= i < |missingOrder|
      ensures incomplete[i] != line
    {
      var m := incomplete[i];
      assert m[|m| - 1] == ']';
    }
    assert ("Reporte generado: " + now)[0] == 'R';
    assert FoundSection(now, pairs, pairOrder) == ["Reporte generado: " + now, "", FoundHeading] + found;
  }

  /** The summary section mentions the absence of pairs exactly when the
      pair count is zero, and never says there are no incomplete files. */
  lemma SummaryMessages(pairCount: nat, outDir: string)
    ensures NoPairsMessage in SummarySection(pairCount, outDir) <==> pairCount == 0
    ensures NoMissingMessage !in SummarySection(pairCount, outDir)
  {
    var summary := SummarySection(pairCount, outDir);
    assert NoPairsMessage[0] == Warning;
    assert NoMissingMessage[0] == 'N';
    if pairCount != 0 {
      assert ("Archivos generados: " + Decimal(pairCount))[0] == 'A';
      assert ("Ruta de salida: " + outDir)[0] == 'R';
      assert summary == ["", SummaryHeading, "Archivos generados: " + Decimal(pairCount), "Ruta de salida: " + outDir];
    } else {
      assert summary == ["", SummaryHeading, NoPairsMessage];
    }
  }

  /** The summary says that no complete pair was found exactly when there is
      none, and the incomplete section says there are no incomplete files
      exactly when there are none, whatever order the dictionaries are
      visited in. */
  lemma {:induction false} ReportMessages(now: string, pairs: map<string, Pair>, missing: map<string, Presence>,
                                          outDir: string, pairOrder: seq<string>, missingOrder: seq<string>)
    requires Enumerates(pairOrder, pairs.Keys) && Enumerates(missingOrder, missing.Keys)
    ensures NoPairsMessage in ReportLines(now, pairs, missing, outDir, pairOrder, missingOrder) <==> |pairs| == 0
    ensures NoMissingMessage in ReportLines(now, pairs, missing, outDir, pairOrder, missingOrder) <==> |missing| == 0
  {
    var found := FoundSection(now, pairs, pairOrder);
    var incomplete := IncompleteSection(missing, missingOrder);
    assert NoPairsMessage[0] == Warning;
    assert NoMissingMessage[0] == 'N';
    BodyLinesDiffer(now, pairs, missing, pairOrder, missingOrder, NoPairsMessage);
    BodyLinesDiffer(now, pairs, missing, pairOrder, missingOrder, NoMissingMessage);
    SummaryMessages(|pairs|, outDir);
    EnumerationLength(missingOrder, missing.Keys);
    if |missing| == 0 {
      assert incomplete == ["", IncompleteHeading, NoMissingMessage];
    }
    assert NoPairsMessage !in incomplete;
  }

  /** The found section: the timestamp line, a blank line, the heading and
      then exactly one line per complete pair. */
  lemma FoundLayout(now: string, pairs: map<string, Pair>, pairOrder: seq<string>)
    requires Enumerates(pairOrder, pairs.Keys)
    ensures var lines := FoundSection(now, pairs, pairOrder);
      |lines| == 3 + |pairs| && lines[0] == "Reporte generado: " + now && lines[1] == "" &&
      lines[2] == FoundHeading &&
      forall id :: id in pairs ==> PairLine(id, pairs[id]) in lines[3..]
  {
    EnumerationLength(pairOrder, pairs.Keys);
    var lines := FoundSection(now, pairs, pairOrder);
    var found := PairLines(pairs, pairOrder);
    assert lines[1] == "";
    assert lines[3..] == found;
    forall id | id in pairs
      ensures PairLine(id, pairs[id]) in found
    {
      var i :| 0 <= i < |pairOrder| && pairOrder[i] == id;
      assert found[i] == PairLine(id, pairs[id]);
    }
  }

  /** The incomplete section: a blank line, the heading, then one line per
      incomplete identifier, or the message that there are none. */
  lemma IncompleteLayout(missing: map<string, Presence>, missingOrder: seq<string>)
    requires Enumerates(missingOrder, missing.Keys)
    ensures var lines := IncompleteSection(missing, missingOrder);
      lines[0] == "" && lines[1] == IncompleteHeading &&
      |lines| == 2 + (if |missing| == 0 then 1 else |missing|) &&
      (|missing| == 0 ==> lines[2] == NoMissingMessage) &&
      forall id :: id in missing ==> MissingLine(id, missing[id]) in lines[2..]
  {
    EnumerationLength(missingOrder, missing.Keys);
    var lines := IncompleteSection(missing, missingOrder);
    if |missing| != 0 {
      var body := MissingLines(missing, missingOrder);
      assert lines[2..] == body;
      forall id | id in missing
        ensures MissingLine(id, missing[id]) in body
      {
        var i :| 0 <= i < |missingOrder| && missingOrder[i] == id;
        assert body[i] == MissingLine(id, missing[id]);
      }
    }
  }
}
