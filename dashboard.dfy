/**
  One recomputation of the dashboard: option lists from the unfiltered
  table, the filter chain, the KPI counts, the id set of the filtered table,
  and the location rows of those ids narrowed by the search term.
*/
module Dashboard {
  import opened Wrappers
  import opened Seqs
  import opened Text
  import opened Records
  import opened Filters
  import opened Aggregate
  import opened Locations
  import opened OptionLists

  datatype View = View(
    contrastOptions: seq<string>,
    studyOptions: seq<string>,
    filtered: seq<DiffRecord>,
    counts: Counts,
    selectedIds: set<Option<string>>,
    locations: seq<LocationRecord>)

  /**
    The sidebar's initial settings: both choices "All", a zero fold-change
    threshold, the smallest RNA value as minimum and no search term. There
    is no such real minimum when every RNA value is missing.
  */
  function DefaultCriteria(diff: seq<DiffRecord>): (c: Option<Criteria>)
    ensures c.None? <==> forall r :: r in diff ==> r.rnaValueBreast.None?
    ensures c.Some? ==> c.value.contrast == All && c.value.studyId == All
    ensures c.Some? ==> c.value.regulationThreshold == 0.0 && c.value.searchTerm == []
    ensures c.Some? ==> MinRna(diff) == Some(c.value.rnaThreshold)
    ensures c.Some? ==> ApplyFilters(diff, c.value) == Where(diff, HasRna())
  {
    match MinRna(diff)
    case None => None
    case Some(m) =>
      var c := Criteria(All, 0.0, m, All, "");
      assert ApplyFilters(diff, c) == Where(diff, HasRna()) by {
        DefaultsKeepMeasuredRows(diff, c);
      }
      Some(c)
  }

  /**
    Recompute every output of the dashboard for one choice of settings. The
    filtered table and the location result are fixed row for row: each is a
    subsequence of its input, with every passing row and all its duplicates.
  */
  function Refresh(diff: seq<DiffRecord>, locs: seq<LocationRecord>, c: Criteria): (v: View)
    ensures |v.contrastOptions| >= 1 && v.contrastOptions[0] == All
    ensures StrictlyIncreasing(v.contrastOptions[1..])
    ensures forall s :: s in v.contrastOptions[1..] <==> exists r :: r in diff && r.contrast == Some(s)
    ensures |v.studyOptions| >= 1 && v.studyOptions[0] == All
    ensures StrictlyIncreasing(v.studyOptions[1..])
    ensures forall s :: s in v.studyOptions[1..] <==> exists r :: r in diff && r.studyId == Some(s)
    ensures IsSubsequence(v.filtered, diff)
    ensures forall r :: r in v.filtered <==> r in diff && Keep(c, r)
    ensures forall r :: multiset(v.filtered)[r] == if Keep(c, r) then multiset(diff)[r] else 0
    ensures v.counts == Summarize(v.filtered)
    ensures v.counts.targetsWithDe <= v.counts.targets <= |v.filtered|
    ensures forall i :: i in v.selectedIds <==> exists r :: r in diff && Keep(c, r) && r.id == i
    ensures IsSubsequence(v.locations, locs)
    ensures forall l :: l in v.locations <==> l in locs && l.id in v.selectedIds && Found(l, c.searchTerm)
    ensures forall l :: multiset(v.locations)[l] ==
                        if l.id in v.selectedIds && Found(l, c.searchTerm) then multiset(locs)[l] else 0
  {
    var filtered := ApplyFilters(diff, c);
    var ids := IdSet(filtered);
    var found := Search(SelectByIds(locs, ids), c.searchTerm);
    var counts := Summarize(filtered);
    assert IsSubsequence(filtered, diff) && (forall r :: r in filtered <==> r in diff && Keep(c, r))
        && forall r :: multiset(filtered)[r] == if Keep(c, r) then multiset(diff)[r] else 0
    by {
      FilteredRows(diff, c);
    }
    assert counts.targetsWithDe <= counts.targets <= |filtered| by {
      DeTargetsAtMostTargets(filtered);
      CountBounds(filtered);
    }
    assert IsSubsequence(found, locs)
        && (forall l :: l in found <==> l in locs && l.id in ids && Found(l, c.searchTerm))
        && forall l :: multiset(found)[l] == if l.id in ids && Found(l, c.searchTerm) then multiset(locs)[l] else 0
    by {
      LocationView(locs, ids, c.searchTerm);
    }
    var contrasts := ContrastOptions(diff);
    var studies := StudyOptions(diff);
    assert forall s :: s in contrasts[1..] <==> exists r :: r in diff && r.contrast == Some(s) by {
      assert forall r :: ContrastOf(r) == r.contrast;
    }
    assert forall s :: s in studies[1..] <==> exists r :: r in diff && r.studyId == Some(s) by {
      assert forall r :: StudyOf(r) == r.studyId;
    }
    View(contrasts, studies, filtered, counts, ids, found)
  }

  // ---------------------------------------------------------------------------
  // Two worked examples.

  /** An up-regulation threshold of 1.0 keeps G1 (fold change 2.0) and drops G2 (-3.0). */
  lemma UpRegulatedExample()
    ensures var g1 := DiffRecord(Some("G1"), Some("S1"), Some("A"), Some(2.0), Some(5.0));
            var g2 := DiffRecord(Some("G2"), Some("S1"), Some("B"), Some(-3.0), Some(1.0));
            var c := Criteria(All, 1.0, 0.0, All, "");
            ApplyFilters([g1, g2], c) == [g1] && Summarize([g1]) == Counts(1, 1, 1, 1)
  {
    var g1 := DiffRecord(Some("G1"), Some("S1"), Some("A"), Some(2.0), Some(5.0));
    var g2 := DiffRecord(Some("G2"), Some("S1"), Some("B"), Some(-3.0), Some(1.0));
    assert DistinctValues([g1], IdOf) == {"G1"};
    assert Where([g1], HasFoldChange()) == [g1];
    assert DistinctValues([g1], StudyOf) == {"S1"};
    assert DistinctValues([g1], ContrastOf) == {"A"};
  }

  /** Of the locations of G1 and G2, with only G1 selected, "nuc" finds the nucleus row. */
  lemma NucleusSearchExample()
    ensures var n := LocationRecord(Some("G1"), "Nucleus");
            var cy := LocationRecord(Some("G2"), "Cytoplasm");
            Search(SelectByIds([n, cy], {Some("G1")}), "nuc") == [n]
  {
    var n := LocationRecord(Some("G1"), "Nucleus");
    var cy := LocationRecord(Some("G2"), "Cytoplasm");
    assert SelectByIds([n, cy], {Some("G1")}) == [n];
    assert Lower("nuc") == "nuc";
    assert Lower("Nucleus") == "nucleus";
    assert StartsWith("nucleus", "nuc");
  }
}
