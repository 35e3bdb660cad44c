/**
  The filter chain of the dashboard: a contrast choice, a study choice, a
  sign-dependent log2-fold-change threshold and a minimum RNA value, applied
  one after the other to the differential-expression table. A comparison
  with a missing value is false, so a missing cell fails every active
  comparison.
*/
module Filters {
  import opened Wrappers
  import opened Seqs
  import opened Records

  predicate ContrastOk(choice: string, r: DiffRecord)
  {
    choice == All || r.contrast == Some(choice)
  }

  predicate StudyOk(choice: string, r: DiffRecord)
  {
    choice == All || r.studyId == Some(choice)
  }

  /** Up-regulated at a positive threshold, down-regulated at a negative one, anything at zero. */
  predicate RegulationOk(t: real, r: DiffRecord)
  {
    if t > 0.0 then r.log2FoldChange.Some? && r.log2FoldChange.value >= t
    else if t < 0.0 then r.log2FoldChange.Some? && r.log2FoldChange.value <= t
    else true
  }

  predicate RnaOk(t: real, r: DiffRecord)
  {
    r.rnaValueBreast.Some? && r.rnaValueBreast.value >= t
  }

  /** A row survives the whole chain exactly when it passes every active filter. */
  predicate Keep(c: Criteria, r: DiffRecord)
  {
    ContrastOk(c.contrast, r) && StudyOk(c.studyId, r)
    && RegulationOk(c.regulationThreshold, r) && RnaOk(c.rnaThreshold, r)
  }

  function KeepTest(c: Criteria): DiffRecord -> bool
  {
    (r: DiffRecord) => Keep(c, r)
  }

  // The row masks of the source, one per comparison.

  function ContrastIs(choice: string): DiffRecord -> bool
  {
    (r: DiffRecord) => r.contrast == Some(choice)
  }

  function StudyIs(choice: string): DiffRecord -> bool
  {
    (r: DiffRecord) => r.studyId == Some(choice)
  }

  function FoldChangeAtLeast(t: real): DiffRecord -> bool
  {
    (r: DiffRecord) => r.log2FoldChange.Some? && r.log2FoldChange.value >= t
  }

  function FoldChangeAtMost(t: real): DiffRecord -> bool
  {
    (r: DiffRecord) => r.log2FoldChange.Some? && r.log2FoldChange.value <= t
  }

  function RnaAtLeast(t: real): DiffRecord -> bool
  {
    (r: DiffRecord) => r.rnaValueBreast.Some? && r.rnaValueBreast.value >= t
  }

  function HasRna(): DiffRecord -> bool
  {
    (r: DiffRecord) => r.rnaValueBreast.Some?
  }

  /** Keep rows of the selected contrast, unless "All" is selected. */
  function FilterContrast(rows: seq<DiffRecord>, choice: string): seq<DiffRecord>
  {
    if choice != All then Where(rows, ContrastIs(choice)) else rows
  }

  /** Keep rows of the selected study, unless "All" is selected. */
  function FilterStudy(rows: seq<DiffRecord>, choice: string): seq<DiffRecord>
  {
    if choice != All then Where(rows, StudyIs(choice)) else rows
  }

  /** The sign of the threshold picks the direction; zero selects everything. */
  function FilterRegulation(rows: seq<DiffRecord>, t: real): seq<DiffRecord>
  {
    if t > 0.0 then Where(rows, FoldChangeAtLeast(t))
    else if t < 0.0 then Where(rows, FoldChangeAtMost(t))
    else rows
  }

  /** Keep rows whose RNA value is at least the minimum. */
  function FilterRna(rows: seq<DiffRecord>, t: real): seq<DiffRecord>
  {
    Where(rows, RnaAtLeast(t))
  }

  /** The chain in the order the dashboard applies it. */
  function ApplyFilters(rows: seq<DiffRecord>, c: Criteria): seq<DiffRecord>
  {
    var byContrast := FilterContrast(rows, c.contrast);
    var byStudy := FilterStudy(byContrast, c.studyId);
    var byRegulation := FilterRegulation(byStudy, c.regulationThreshold);
    FilterRna(byRegulation, c.rnaThreshold)
  }

  /** The default RNA minimum: the smallest RNA value present, missing cells skipped. */
  function MinRna(rows: seq<DiffRecord>): (m: Option<real>)
    ensures m.None? <==> forall r :: r in rows ==> r.rnaValueBreast.None?
    ensures m.Some? ==> exists r :: r in rows && r.rnaValueBreast == m
    ensures m.Some? ==> forall r :: r in rows && r.rnaValueBreast.Some? ==> m.value <= r.rnaValueBreast.value
  {
    if rows == [] then None
    else
      var rest := MinRna(rows[1..]);
      match rows[0].rnaValueBreast
      case None => rest
      case Some(v) =>
        if rest.Some? && rest.value < v then rest else Some(v)
  }

  // ---------------------------------------------------------------------------
  // The four filters as stages that may be applied in any order.

  datatype Stage = ContrastStage | StudyStage | RegulationStage | RnaStage

  predicate Passes(st: Stage, c: Criteria, r: DiffRecord)
  {
    match st
    case ContrastStage => ContrastOk(c.contrast, r)
    case StudyStage => StudyOk(c.studyId, r)
    case RegulationStage => RegulationOk(c.regulationThreshold, r)
    case RnaStage => RnaOk(c.rnaThreshold, r)
  }

  function StageTest(st: Stage, c: Criteria): DiffRecord -> bool
  {
    (r: DiffRecord) => Passes(st, c, r)
  }

  predicate PassesAll(order: seq<Stage>, c: Criteria, r: DiffRecord)
  {
    forall st :: st in order ==> Passes(st, c, r)
  }

  function PassesAllTest(order: seq<Stage>, c: Criteria): DiffRecord -> bool
  {
    (r: DiffRecord) => PassesAll(order, c, r)
  }

  function ApplyStage(rows: seq<DiffRecord>, c: Criteria, st: Stage): seq<DiffRecord>
  {
    match st
    case ContrastStage => FilterContrast(rows, c.contrast)
    case StudyStage => FilterStudy(rows, c.studyId)
    case RegulationStage => FilterRegulation(rows, c.regulationThreshold)
    case RnaStage => FilterRna(rows, c.rnaThreshold)
  }

  /** Apply the stages of `order`, first to last. */
  function ApplyStages(rows: seq<DiffRecord>, c: Criteria, order: seq<Stage>): seq<DiffRecord>
    decreases |order|
  {
    if order == [] then rows else ApplyStages(ApplyStage(rows, c, order[0]), c, order[1..])
  }

  /** Each stage, skipped or not, is a stable selection by its own test. */
  lemma StageIsSelection(rows: seq<DiffRecord>, c: Criteria, st: Stage)
    ensures ApplyStage(rows, c, st) == Where(rows, StageTest(st, c))
  {
    match st
    case ContrastStage =>
      if c.contrast != All {
        WhereExt(rows, ContrastIs(c.contrast), StageTest(st, c));
      } else {
        WhereAll(rows, StageTest(st, c));
      }
    case StudyStage =>
      if c.studyId != All {
        WhereExt(rows, StudyIs(c.studyId), StageTest(st, c));
      } else {
        WhereAll(rows, StageTest(st, c));
      }
    case RegulationStage =>
      var t := c.regulationThreshold;
      if t > 0.0 {
        WhereExt(rows, FoldChangeAtLeast(t), StageTest(st, c));
      } else if t < 0.0 {
        WhereExt(rows, FoldChangeAtMost(t), StageTest(st, c));
      } else {
        WhereAll(rows, StageTest(st, c));
      }
    case RnaStage =>
      WhereExt(rows, RnaAtLeast(c.rnaThreshold), StageTest(st, c));
  }

  /** Any sequence of stages selects the rows that pass every stage in it. */
  lemma {:induction false} StagesAreSelection(rows: seq<DiffRecord>, c: Criteria, order: seq<Stage>)
    ensures ApplyStages(rows, c, order) == Where(rows, PassesAllTest(order, c))
    decreases |order|
  {
    if order == [] {
      WhereAll(rows, PassesAllTest(order, c));
    } else {
      var first := ApplyStage(rows, c, order[0]);
      StagesAreSelection(first, c, order[1..]);
      StageIsSelection(rows, c, order[0]);
      WhereWhere(rows, StageTest(order[0], c), PassesAllTest(order[1..], c));
      forall r ensures Both(StageTest(order[0], c), PassesAllTest(order[1..], c))(r) == PassesAllTest(order, c)(r) {
        assert order == [order[0]] + order[1..];
      }
      WhereExt(rows, Both(StageTest(order[0], c), PassesAllTest(order[1..], c)), PassesAllTest(order, c));
    }
  }

  /** The chain as written is the single-pass selection of the rows passing all four filters. */
  lemma ApplyFiltersIsSelection(rows: seq<DiffRecord>, c: Criteria)
    ensures ApplyFilters(rows, c) == Where(rows, KeepTest(c))
  {
    var order := [ContrastStage, StudyStage, RegulationStage, RnaStage];
    assert ApplyFilters(rows, c) == ApplyStages(rows, c, order) by {
      assert order[1..][1..][1..][1..] == [];
    }
    StagesAreSelection(rows, c, order);
    WhereExt(rows, PassesAllTest(order, c), KeepTest(c));
  }

  /**
    The filtered table is a subsequence of the input, a row is in it exactly
    when it passes every active filter, and each kept row keeps all of its
    duplicates.
  */
  lemma FilteredRows(rows: seq<DiffRecord>, c: Criteria)
    ensures IsSubsequence(ApplyFilters(rows, c), rows)
    ensures forall r :: r in ApplyFilters(rows, c) <==> r in rows && Keep(c, r)
    ensures forall r :: multiset(ApplyFilters(rows, c))[r] == if Keep(c, r) then multiset(rows)[r] else 0
  {
    ApplyFiltersIsSelection(rows, c);
    WhereIsSubsequence(rows, KeepTest(c));
    WhereCounts(rows, KeepTest(c));
  }

  /**
    The four filters commute: applying them in any order (each at least once)
    gives the table the dashboard computes.
  */
  lemma FiltersCommute(rows: seq<DiffRecord>, c: Criteria, order: seq<Stage>)
    requires forall st: Stage :: st in order
    ensures ApplyStages(rows, c, order) == ApplyFilters(rows, c)
  {
    StagesAreSelection(rows, c, order);
    ApplyFiltersIsSelection(rows, c);
    forall r ensures PassesAllTest(order, c)(r) == KeepTest(c)(r) {
      assert ContrastStage in order && StudyStage in order && RegulationStage in order && RnaStage in order;
    }
    WhereExt(rows, PassesAllTest(order, c), KeepTest(c));
  }

  /**
    A positive threshold keeps only measured fold changes at or above it, a
    negative one only measured fold changes at or below it; at zero the fold
    change plays no part, so rows without one survive.
  */
  lemma RegulationThresholdSign(rows: seq<DiffRecord>, c: Criteria)
    ensures c.regulationThreshold > 0.0 ==> forall r :: r in ApplyFilters(rows, c) ==>
      r.log2FoldChange.Some? && r.log2FoldChange.value >= c.regulationThreshold
    ensures c.regulationThreshold < 0.0 ==> forall r :: r in ApplyFilters(rows, c) ==>
      r.log2FoldChange.Some? && r.log2FoldChange.value <= c.regulationThreshold
    ensures c.regulationThreshold == 0.0 ==> forall r :: r in ApplyFilters(rows, c) <==>
      r in rows && ContrastOk(c.contrast, r) && StudyOk(c.studyId, r) && RnaOk(c.rnaThreshold, r)
  {
    FilteredRows(rows, c);
  }

  /**
    With both choices at "All", a zero threshold and the RNA minimum at its
    default, the filter keeps exactly the rows that have an RNA value; with
    no missing RNA value that is the whole table.
  */
  lemma DefaultsKeepMeasuredRows(rows: seq<DiffRecord>, c: Criteria)
    requires c.contrast == All && c.studyId == All && c.regulationThreshold == 0.0
    requires MinRna(rows) == Some(c.rnaThreshold)
    ensures ApplyFilters(rows, c) == Where(rows, HasRna())
    ensures (forall r :: r in rows ==> r.rnaValueBreast.Some?) ==> ApplyFilters(rows, c) == rows
  {
    ApplyFiltersIsSelection(rows, c);
    WhereExt(rows, KeepTest(c), HasRna());
    if forall r :: r in rows ==> r.rnaValueBreast.Some? {
      WhereAll(rows, HasRna());
    }
  }
}
