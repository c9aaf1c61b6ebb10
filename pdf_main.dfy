/**
 `main` of the pairing script, once the command line is parsed and the
 directories resolved: reconcile the listing, merge every complete pair,
 then write `reporte.txt` into the output directory. The console output
 is not modelled.
 */
module PdfMain {
  import opened Text
  import opened PdfNames
  import opened PdfPairs
  import opened PdfMerge
  import opened PdfReport

  /** `out_dir / "reporte.txt"`. */
  function ReportPath(outDir: string): string { Join(outDir, ReportName) }

  /** The report never overwrites a merged output. */
  lemma ReportPathIsNotAnOutput(outDir: string, ids: set<string>)
    ensures ReportPath(outDir) !in OutputPaths(outDir, ids)
  {
    forall id | id in ids
      ensures OutputPath(outDir, id) != ReportPath(outDir)
    {
      assert MergedName(id)[0] != ReportName[0];
      if OutputPath(outDir, id) == ReportPath(outDir) {
        JoinInjective(outDir, MergedName(id), ReportName);
      }
    }
  }

  /** The output directory after the merges and the report: every merged
      output and the report are there, and nothing else has changed. */
  ghost predicate RunDirectory(dir: map<string, Content>, files: map<string, Content>, pairs: map<string, Pair>,
                               outDir: string, report: seq<string>)
  {
    dir.Keys == files.Keys + OutputPaths(outDir, pairs.Keys) + {ReportPath(outDir)} &&
    dir[ReportPath(outDir)] == TextFile(report) &&
    (forall id :: id in pairs ==> dir[OutputPath(outDir, id)] == Merged([pairs[id].sFile, pairs[id].plainFile])) &&
    (forall p :: p in files && p !in OutputPaths(outDir, pairs.Keys) && p != ReportPath(outDir) ==> dir[p] == files[p])
  }

  /** Writing the report after the merges leaves every merged output in place. */
  lemma ReportAfterMerges(merged: map<string, Content>, files: map<string, Content>, pairs: map<string, Pair>,
                          outDir: string, report: seq<string>)
    requires MergedUpTo(merged, files, pairs, outDir, pairs.Keys)
    ensures RunDirectory(merged[ReportPath(outDir) := TextFile(report)], files, pairs, outDir, report)
  {
    ReportPathIsNotAnOutput(outDir, pairs.Keys);
    forall id | id in pairs
      ensures OutputPath(outDir, id) in OutputPaths(outDir, pairs.Keys)
    {
    }
  }

  /** One run over the directory listing `names`, with `files` the output
      directory's contents beforehand and `now` the formatted timestamp. */
  method Run(names: seq<string>, outDir: string, now: string, files: map<string, Content>)
    returns (dir: map<string, Content>, report: seq<string>, ghost pairOrder: seq<string>, ghost missingOrder: seq<string>)
    ensures var pairs := PairsOf(Collected(names, Plain), Collected(names, Secondary));
      var missing := MissingOf(Collected(names, Plain), Collected(names, Secondary));
      Enumerates(pairOrder, pairs.Keys) && Enumerates(missingOrder, missing.Keys) &&
      report == ReportLines(now, pairs, missing, outDir, pairOrder, missingOrder) &&
      RunDirectory(dir, files, pairs, outDir, report)
  {
    var pairs, missing := FindPairs(names);
    var merged := MergeAll(pairs, outDir, files);
    report, pairOrder, missingOrder := WriteReport(now, pairs, missing, outDir);
    ReportAfterMerges(merged, files, pairs, outDir, report);
    dir := merged[ReportPath(outDir) := TextFile(report)];
  }

  /** An identifier is incomplete only when the two conventions disagree on it. */
  lemma NoMissingIffSameIds(plain: map<string, string>, sfiles: map<string, string>)
    ensures |MissingOf(plain, sfiles)| == 0 <==> plain.Keys == sfiles.Keys
  {
    ReconcilePartition(plain, sfiles);
    var missing := MissingOf(plain, sfiles);
    if |missing| != 0 {
      var id :| id in missing;
    }
    if plain.Keys != sfiles.Keys {
      if exists id :: id in plain.Keys && id !in sfiles.Keys {
        var id :| id in plain.Keys && id !in sfiles.Keys;
        assert id in missing;
      } else {
        var id :| id in sfiles.Keys && id !in plain.Keys;
        assert id in missing;
      }
    }
  }

  /** What a run promises the user: one output per complete pair, a report
      that says "no complete pairs" exactly when no file was merged, and that
      says "no incomplete files" exactly when both conventions carry the same
      identifiers. */
  lemma {:induction false} RunOutcome(plain: map<string, string>, sfiles: map<string, string>, outDir: string, now: string,
                                      pairOrder: seq<string>, missingOrder: seq<string>)
    requires Enumerates(pairOrder, PairsOf(plain, sfiles).Keys) && Enumerates(missingOrder, MissingOf(plain, sfiles).Keys)
    ensures var pairs, missing := PairsOf(plain, sfiles), MissingOf(plain, sfiles);
      var report := ReportLines(now, pairs, missing, outDir, pairOrder, missingOrder);
      |OutputPaths(outDir, pairs.Keys)| == |pairs| &&
      (NoPairsMessage in report <==> |OutputPaths(outDir, pairs.Keys)| == 0) &&
      (NoMissingMessage in report <==> plain.Keys == sfiles.Keys)
  {
    var pairs, missing := PairsOf(plain, sfiles), MissingOf(plain, sfiles);
    OutputPathsCount(outDir, pairs.Keys);
    ReportMessages(now, pairs, missing, outDir, pairOrder, missingOrder);
    NoMissingIffSameIds(plain, sfiles);
  }
}
