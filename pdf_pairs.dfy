/**
 `find_pairs`: the file names of one directory listing are sorted into the two
 conventions, and the identifiers are reconciled into complete pairs and
 incomplete entries.
 */
module PdfPairs {
  import opened Wrappers
  import opened Text
  import opened PdfNames

  /** A complete pair, stored as the script stores it: S file first. */
  datatype Pair = Pair(sFile: string, plainFile: string)

  /** The presence record of an incomplete identifier:
      `{"S.pdf": hasS, "normal.pdf": hasPlain}`. */
  datatype Presence = Presence(hasS: bool, hasPlain: bool)

  /** The dictionary `plain` (for `Plain`) or `sfiles` (for `Secondary`) after
      the first `|names|` files: each identifier maps to the last file name
      of that convention that carries it. */
  function Collected(names: seq<string>, conv: Convention): map<string, string> {
    if names == [] then map[]
    else
      var m := Collected(names[..|names| - 1], conv);
      var n := names[|names| - 1];
      match Classify(n)
      case Some(t) => if t.conv == conv then m[t.id := n] else m
      case None => m
  }

  /** `names[i]` is the last name of convention `conv` that carries `id`. */
  ghost predicate LastWith(names: seq<string>, conv: Convention, id: string, i: int) {
    0 <= i < |names| && Classify(names[i]) == Some(Tagged(conv, id)) &&
    forall j :: i < j < |names| ==> Classify(names[j]) != Some(Tagged(conv, id))
  }

  /** Some name of convention `conv` in `names` carries `id`. */
  ghost predicate Carries(names: seq<string>, conv: Convention, id: string) {
    exists i :: 0 <= i < |names| && Classify(names[i]) == Some(Tagged(conv, id))
  }

  /** How one more name changes the dictionary of its convention. */
  lemma CollectedStep(names: seq<string>, conv: Convention, id: string)
    requires names != []
    ensures var init, n := names[..|names| - 1], names[|names| - 1];
      if Classify(n) == Some(Tagged(conv, id)) then
        id in Collected(names, conv) && Collected(names, conv)[id] == n
      else
        (id in Collected(names, conv) <==> id in Collected(init, conv)) &&
        (id in Collected(init, conv) ==> Collected(names, conv)[id] == Collected(init, conv)[id])
  {
  }

  /** An identifier is collected exactly when some name of the convention
      carries it. */
  lemma {:induction false} CollectedKeys(names: seq<string>, conv: Convention, id: string)
    ensures id in Collected(names, conv) <==> Carries(names, conv, id)
  {
    if names != [] {
      var init, n := names[..|names| - 1], names[|names| - 1];
      CollectedKeys(init, conv, id);
      CollectedStep(names, conv, id);
      CarriesStep(names, conv, id);
      if Classify(n) == Some(Tagged(conv, id)) {
        assert Carries(names, conv, id);
      }
    }
  }

  /** A name that does not carry `id` does not change whether the listing carries it. */
  lemma CarriesStep(names: seq<string>, conv: Convention, id: string)
    requires names != []
    ensures Classify(names[|names| - 1]) != Some(Tagged(conv, id)) ==>
      (Carries(names, conv, id) <==> Carries(names[..|names| - 1], conv, id))
  {
    var init := names[..|names| - 1];
    if Classify(names[|names| - 1]) != Some(Tagged(conv, id)) {
      if Carries(names, conv, id) {
        var i :| 0 <= i < |names| && Classify(names[i]) == Some(Tagged(conv, id));
        assert i < |init| && init[i] == names[i];
      }
      if Carries(init, conv, id) {
        var i :| 0 <= i < |init| && Classify(init[i]) == Some(Tagged(conv, id));
        assert names[i] == init[i];
      }
    }
  }

  /** Last-seen-wins: a collected identifier maps to the last name of the
      convention that carries it. */
  lemma {:induction false} CollectedIsLastSeen(names: seq<string>, conv: Convention, id: string)
    requires id in Collected(names, conv)
    ensures exists i :: LastWith(names, conv, id, i) && names[i] == Collected(names, conv)[id]
  {
    var init, n := names[..|names| - 1], names[|names| - 1];
    CollectedStep(names, conv, id);
    if Classify(n) == Some(Tagged(conv, id)) {
      assert LastWith(names, conv, id, |names| - 1);
    } else {
      CollectedIsLastSeen(init, conv, id);
      var i :| LastWith(init, conv, id, i) && init[i] == Collected(init, conv)[id];
      forall j | i < j < |names|
        ensures Classify(names[j]) != Some(Tagged(conv, id))
      {
        if j < |init| {
          assert names[j] == init[j];
          assert Classify(init[j]) != Some(Tagged(conv, id));
        } else {
          assert names[j] == n;
        }
      }
      assert names[i] == init[i];
      assert LastWith(names, conv, id, i);
    }
  }

  /** The complete pairs of two dictionaries: the identifiers in both. */
  function PairsOf(plain: map<string, string>, sfiles: map<string, string>): map<string, Pair> {
    map id | id in plain.Keys * sfiles.Keys :: Pair(sfiles[id], plain[id])
  }

  /** The incomplete entries: the identifiers in exactly one dictionary. */
  function MissingOf(plain: map<string, string>, sfiles: map<string, string>): map<string, Presence> {
    map id | id in (plain.Keys + sfiles.Keys) - (plain.Keys * sfiles.Keys) :: Presence(id in sfiles, id in plain)
  }

  /** Pairs and incomplete entries partition the identifiers of both
      conventions, and an incomplete entry has exactly one flag set. */
  lemma ReconcilePartition(plain: map<string, string>, sfiles: map<string, string>)
    ensures PairsOf(plain, sfiles).Keys == plain.Keys * sfiles.Keys
    ensures PairsOf(plain, sfiles).Keys !! MissingOf(plain, sfiles).Keys
    ensures PairsOf(plain, sfiles).Keys + MissingOf(plain, sfiles).Keys == plain.Keys + sfiles.Keys
    ensures forall id :: id in MissingOf(plain, sfiles) ==>
      MissingOf(plain, sfiles)[id].hasS != MissingOf(plain, sfiles)[id].hasPlain
    ensures forall id :: id in MissingOf(plain, sfiles) ==>
      (MissingOf(plain, sfiles)[id].hasS <==> id in sfiles) && (MissingOf(plain, sfiles)[id].hasPlain <==> id in plain)
  {
  }

  /** `find_pairs` over a directory listing `names` (in listing order). */
  method FindPairs(names: seq<string>) returns (pairs: map<string, Pair>, missing: map<string, Presence>)
    ensures pairs == PairsOf(Collected(names, Plain), Collected(names, Secondary))
    ensures missing == MissingOf(Collected(names, Plain), Collected(names, Secondary))
  {
    var plain: map<string, string> := map[];
    var sfiles: map<string, string> := map[];
    for i := 0 to |names|
      invariant plain == Collected(names[..i], Plain)
      invariant sfiles == Collected(names[..i], Secondary)
    {
      var name := names[i];
      assert names[..i + 1][..i] == names[..i];
      var m := MatchPlain(name);
      if m.Some? {
        plain := plain[m.value := name];
      } else {
        m := MatchS(name);
        if m.Some? {
          sfiles := sfiles[m.value := name];
        }
      }
    }
    assert names[..|names|] == names;

    var allIds := plain.Keys + sfiles.Keys;
    pairs, missing := map[], map[];
    var rest := allIds;
    while rest != {}
      invariant rest <= allIds
      invariant pairs.Keys == (allIds - rest) * plain.Keys * sfiles.Keys
      invariant forall id :: id in pairs ==> pairs[id] == Pair(sfiles[id], plain[id])
      invariant missing.Keys == (allIds - rest) - (plain.Keys * sfiles.Keys)
      invariant forall id :: id in missing ==> missing[id] == Presence(id in sfiles, id in plain)
      decreases rest
    {
      var num :| num in rest;
      var sPath := if num in sfiles then Some(sfiles[num]) else None;
      var pPath := if num in plain then Some(plain[num]) else None;
      if sPath.Some? && pPath.Some? {
        pairs := pairs[num := Pair(sPath.value, pPath.value)];
      } else {
        missing := missing[num := Presence(sPath.Some?, pPath.Some?)];
      }
      rest := rest - {num};
    }
  }

  /** Every pair joins an S file and a plain file that both carry the pair's
      identifier, S file first. That every incomplete entry has exactly one
      flag is `ReconcilePartition`. */
  lemma {:induction false} FindPairsContents(names: seq<string>)
    ensures var plain, sfiles := Collected(names, Plain), Collected(names, Secondary);
      forall id :: id in PairsOf(plain, sfiles) ==>
        PairsOf(plain, sfiles)[id].sFile in names &&
        PairsOf(plain, sfiles)[id].plainFile in names &&
        MatchS(PairsOf(plain, sfiles)[id].sFile) == Some(id) &&
        MatchPlain(PairsOf(plain, sfiles)[id].plainFile) == Some(id)
  {
    var plain, sfiles := Collected(names, Plain), Collected(names, Secondary);
    forall id | id in PairsOf(plain, sfiles)
      ensures PairsOf(plain, sfiles)[id].sFile in names
      ensures PairsOf(plain, sfiles)[id].plainFile in names
      ensures MatchS(PairsOf(plain, sfiles)[id].sFile) == Some(id)
      ensures MatchPlain(PairsOf(plain, sfiles)[id].plainFile) == Some(id)
    {
      CollectedIsLastSeen(names, Plain, id);
      CollectedIsLastSeen(names, Secondary, id);
      ClassifySound(sfiles[id]);
      ClassifySound(plain[id]);
    }
  }

  /** An identifier is paired exactly when the listing holds a name of each
      convention carrying it, and incomplete exactly when it holds names of
      only one convention. */
  lemma {:induction false} PairedIffBothConventions(names: seq<string>, id: string)
    ensures var plain, sfiles := Collected(names, Plain), Collected(names, Secondary);
      (id in PairsOf(plain, sfiles) <==> Carries(names, Plain, id) && Carries(names, Secondary, id)) &&
      (id in MissingOf(plain, sfiles) <==> Carries(names, Plain, id) != Carries(names, Secondary, id))
  {
    CollectedKeys(names, Plain, id);
    CollectedKeys(names, Secondary, id);
  }
}
