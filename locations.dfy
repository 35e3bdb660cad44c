/**
  The location table view: the location rows of the targets left in the
  filtered differential-expression table, narrowed by a case-insensitive
  text search over `locations_clean`. The search term is matched literally.
*/
module Locations {
  import opened Wrappers
  import opened Seqs
  import opened Text
  import opened Records
  import opened Aggregate

  function IdIn(ids: set<Option<string>>): LocationRecord -> bool
  {
    (l: LocationRecord) => l.id in ids
  }

  /** The location rows whose id is one of `ids` (`isin`), in table order. */
  function SelectByIds(locs: seq<LocationRecord>, ids: set<Option<string>>): seq<LocationRecord>
  {
    Where(locs, IdIn(ids))
  }

  /**
    Selecting by the id set of a filtered table keeps, in their order, exactly
    the location rows whose id occurs in that table, each duplicate included.
  */
  lemma SelectedLocations(locs: seq<LocationRecord>, rows: seq<DiffRecord>)
    ensures IsSubsequence(SelectByIds(locs, IdSet(rows)), locs)
    ensures forall l :: l in SelectByIds(locs, IdSet(rows)) <==>
      l in locs && exists r :: r in rows && r.id == l.id
    ensures forall l ::
      multiset(SelectByIds(locs, IdSet(rows)))[l] == if l.id in IdSet(rows) then multiset(locs)[l] else 0
  {
    WhereIsSubsequence(locs, IdIn(IdSet(rows)));
    WhereCounts(locs, IdIn(IdSet(rows)));
  }

  /** The row's location text, lower-cased, contains the lower-cased term. */
  function Mentions(term: string): LocationRecord -> bool
  {
    (l: LocationRecord) => Contains(Lower(l.locationsClean), Lower(term))
  }

  /** An empty term leaves the table as it is; otherwise keep the rows that mention it. */
  function Search(locs: seq<LocationRecord>, term: string): seq<LocationRecord>
  {
    if term != [] then Where(locs, Mentions(term)) else locs
  }

  /**
    The search result is a subsequence of its input: all of it for an empty
    term, otherwise the rows whose lower-cased text has the lower-cased term
    at some offset, each with all of its duplicates.
  */
  lemma SearchResult(locs: seq<LocationRecord>, term: string)
    ensures term == [] ==> Search(locs, term) == locs
    ensures IsSubsequence(Search(locs, term), locs)
    ensures term != [] ==> forall l :: l in Search(locs, term) <==>
      l in locs && exists i :: OccursAt(Lower(l.locationsClean), Lower(term), i)
    ensures term != [] ==> forall l ::
      multiset(Search(locs, term))[l] == if Mentions(term)(l) then multiset(locs)[l] else 0
  {
    if term == [] {
      IsSubsequenceReflexive(locs);
    } else {
      WhereIsSubsequence(locs, Mentions(term));
      WhereCounts(locs, Mentions(term));
      forall l ensures Mentions(term)(l) <==> exists i :: OccursAt(Lower(l.locationsClean), Lower(term), i) {
        ContainsAt(Lower(l.locationsClean), Lower(term));
      }
    }
  }

  /** True when the location row passes the search for `term`. */
  ghost predicate Found(l: LocationRecord, term: string)
  {
    term == [] || exists i :: OccursAt(Lower(l.locationsClean), Lower(term), i)
  }

  /**
    The location view as a whole: a subsequence of the location table holding
    every row whose id is selected and that passes the search, each with all
    of its duplicates, and no other row.
  */
  lemma LocationView(locs: seq<LocationRecord>, ids: set<Option<string>>, term: string)
    ensures IsSubsequence(Search(SelectByIds(locs, ids), term), locs)
    ensures forall l :: l in Search(SelectByIds(locs, ids), term) <==> l in locs && l.id in ids && Found(l, term)
    ensures forall l :: multiset(Search(SelectByIds(locs, ids), term))[l] ==
                        if l.id in ids && Found(l, term) then multiset(locs)[l] else 0
  {
    var byId := SelectByIds(locs, ids);
    WhereIsSubsequence(locs, IdIn(ids));
    WhereCounts(locs, IdIn(ids));
    SearchResult(byId, term);
    IsSubsequenceTransitive(Search(byId, term), byId, locs);
    forall l ensures term != [] ==> (Mentions(term)(l) <==> Found(l, term)) {
      ContainsAt(Lower(l.locationsClean), Lower(term));
    }
  }

  /** Two terms that agree after lower-casing find the same rows. */
  lemma SearchCaseInsensitive(locs: seq<LocationRecord>, a: string, b: string)
    requires Lower(a) == Lower(b)
    ensures Search(locs, a) == Search(locs, b)
  {
    assert |a| == |b|;
    if a != [] {
      WhereExt(locs, Mentions(a), Mentions(b));
    }
  }

  /** Searching for a term, its upper-cased or its lower-cased form gives the same rows. */
  lemma SearchIgnoresCase(locs: seq<LocationRecord>, term: string)
    ensures Search(locs, Upper(term)) == Search(locs, term)
    ensures Search(locs, Lower(term)) == Search(locs, term)
  {
    LowerOfUpper(term);
    SearchCaseInsensitive(locs, Upper(term), term);
    LowerIdempotent(term);
    SearchCaseInsensitive(locs, Lower(term), term);
  }
}
