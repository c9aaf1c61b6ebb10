/**
 The merge phase of the pairing script: each complete pair is merged into
 `MT-<id>.pdf`, the S file's pages first. The PDF library is modelled only by
 the order in which documents are appended; the output directory is a map
 from each written path to what it holds.
 */
module PdfMerge {
  import opened Text
  import opened PdfNames
  import opened PdfPairs

  /** A file the script writes: a merged PDF, given by the documents whose
      pages it holds in order, or a text file, given by its lines. */
  datatype Content = Merged(sources: seq<string>) | TextFile(lines: seq<string>)

  /** The `PdfMerger` of one merge: the documents appended so far, in order. */
  class Merger {
    var appended: seq<string>

    constructor ()
      ensures appended == []
    {
      appended := [];
    }

    method Append(doc: string)
      modifies this
      ensures appended == old(appended) + [doc]
    {
      appended := appended + [doc];
    }
  }

  /** `merge_pair(s_first, second, out_path)`: the file at `outPath` is
      replaced by one holding `sFirst`'s pages and then `second`'s. */
  method MergePair(sFirst: string, second: string, outPath: string, files: map<string, Content>)
    returns (written: map<string, Content>)
    ensures written == files[outPath := Merged([sFirst, second])]
  {
    var merger := new Merger();
    merger.Append(sFirst);
    merger.Append(second);
    assert merger.appended == [sFirst, second];
    written := files[outPath := Merged(merger.appended)];
  }

  /** The output paths of a set of identifiers. */
  function OutputPaths(outDir: string, ids: set<string>): set<string> {
    set id | id in ids :: OutputPath(outDir, id)
  }

  /** Every identifier gets its own output file: as many outputs as pairs. */
  lemma {:induction false} OutputPathsCount(outDir: string, ids: set<string>)
    ensures |OutputPaths(outDir, ids)| == |ids|
    decreases ids
  {
    if ids != {} {
      var x :| x in ids;
      var rest := ids - {x};
      OutputPathsCount(outDir, rest);
      assert OutputPaths(outDir, ids) == OutputPaths(outDir, rest) + {OutputPath(outDir, x)};
      if OutputPath(outDir, x) in OutputPaths(outDir, rest) {
        var y :| y in rest && OutputPath(outDir, y) == OutputPath(outDir, x);
        OutputPathInjective(outDir, x, y);
      }
    }
  }

  /** A new identifier's output path is not among those already written. */
  lemma OutputPathFresh(outDir: string, done: set<string>, id: string)
    requires id !in done
    ensures forall other :: other in done ==> OutputPath(outDir, other) != OutputPath(outDir, id)
    ensures OutputPaths(outDir, done + {id}) == OutputPaths(outDir, done) + {OutputPath(outDir, id)}
  {
    forall other | other in done
      ensures OutputPath(outDir, other) != OutputPath(outDir, id)
    {
      if OutputPath(outDir, other) == OutputPath(outDir, id) {
        OutputPathInjective(outDir, other, id);
      }
    }
  }

  /** The output directory once the pairs with identifiers in `done` are merged
      into `files`: their outputs hold the S file and then the plain file, and
      every other file is as it was. */
  ghost predicate MergedUpTo(written: map<string, Content>, files: map<string, Content>,
                             pairs: map<string, Pair>, outDir: string, done: set<string>)
  {
    done <= pairs.Keys &&
    written.Keys == files.Keys + OutputPaths(outDir, done) &&
    (forall id :: id in done ==> written[OutputPath(outDir, id)] == Merged([pairs[id].sFile, pairs[id].plainFile])) &&
    (forall p :: p in files && p !in OutputPaths(outDir, done) ==> written[p] == files[p])
  }

  /** Merging one more pair extends what has been merged by that pair. */
  lemma MergeStep(written: map<string, Content>, files: map<string, Content>,
                  pairs: map<string, Pair>, outDir: string, done: set<string>, base: string)
    requires MergedUpTo(written, files, pairs, outDir, done)
    requires base in pairs && base !in done
    ensures MergedUpTo(written[OutputPath(outDir, base) := Merged([pairs[base].sFile, pairs[base].plainFile])],
                       files, pairs, outDir, done + {base})
  {
    OutputPathFresh(outDir, done, base);
  }

  /** The merge loop of `main`: every pair is merged into `out_dir/MT-<id>.pdf`.
      Pairs are visited in an unspecified order; since no two identifiers
      share an output path, the result does not depend on it. */
  method MergeAll(pairs: map<string, Pair>, outDir: string, files: map<string, Content>)
    returns (written: map<string, Content>)
    ensures MergedUpTo(written, files, pairs, outDir, pairs.Keys)
  {
    written := files;
    var rest := pairs.Keys;
    while rest != {}
      invariant rest <= pairs.Keys
      invariant MergedUpTo(written, files, pairs, outDir, pairs.Keys - rest)
      decreases rest
    {
      var base :| base in rest;
      MergeStep(written, files, pairs, outDir, pairs.Keys - rest, base);
      assert pairs.Keys - (rest - {base}) == (pairs.Keys - rest) + {base};
      written := MergePair(pairs[base].sFile, pairs[base].plainFile, OutputPath(outDir, base), written);
      rest := rest - {base};
    }
  }
}
