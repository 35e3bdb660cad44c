/**
  The summary numbers of the dashboard. `nunique` counts the distinct values
  of a column and skips missing cells; `unique` lists them and keeps a
  missing cell as a value of its own.
*/
module Aggregate {
  import opened Wrappers
  import opened Seqs
  import opened Records

  function IdOf(r: DiffRecord): Option<string> { r.id }
  function StudyOf(r: DiffRecord): Option<string> { r.studyId }
  function ContrastOf(r: DiffRecord): Option<string> { r.contrast }

  function HasFoldChange(): DiffRecord -> bool
  {
    (r: DiffRecord) => r.log2FoldChange.Some?
  }

  /** The distinct non-missing values of a column (`nunique` is its size). */
  function DistinctValues(rows: seq<DiffRecord>, column: DiffRecord -> Option<string>): (d: set<string>)
    ensures forall v :: v in d <==> exists r :: r in rows && column(r) == Some(v)
    ensures |d| <= |rows|
  {
    if rows == [] then {}
    else
      var rest := DistinctValues(rows[1..], column);
      assert rows == [rows[0]] + rows[1..];
      match column(rows[0])
      case None => rest
      case Some(v) => {v} + rest
  }

  /** The distinct ids of a table, a missing id included (`unique`). */
  function IdSet(rows: seq<DiffRecord>): (ids: set<Option<string>>)
    ensures forall i :: i in ids <==> exists r :: r in rows && r.id == i
    ensures |ids| <= |rows|
  {
    if rows == [] then {}
    else
      assert rows == [rows[0]] + rows[1..];
      {rows[0].id} + IdSet(rows[1..])
  }

  datatype Counts = Counts(targets: nat, targetsWithDe: nat, studies: nat, contrasts: nat)

  /** The four KPI numbers of a filtered table. */
  function Summarize(rows: seq<DiffRecord>): Counts
  {
    Counts(
      |DistinctValues(rows, IdOf)|,
      |DistinctValues(Where(rows, HasFoldChange()), IdOf)|,
      |DistinctValues(rows, StudyOf)|,
      |DistinctValues(rows, ContrastOf)|)
  }

  lemma {:induction false} SubsetSize<T>(a: set<T>, b: set<T>)
    requires a <= b
    ensures |a| <= |b|
    decreases |b|
  {
    if a != {} {
      var x :| x in a;
      SubsetSize(a - {x}, b - {x});
    }
  }

  /** Targets with a fold change are among the targets, so never more of them. */
  lemma DeTargetsAtMostTargets(rows: seq<DiffRecord>)
    ensures Summarize(rows).targetsWithDe <= Summarize(rows).targets
  {
    SubsetSize(DistinctValues(Where(rows, HasFoldChange()), IdOf), DistinctValues(rows, IdOf));
  }

  /**
    Every count is at most the number of rows, and a count is zero exactly
    when no row has a value in that column; so an empty table counts zero
    everywhere.
  */
  lemma CountBounds(rows: seq<DiffRecord>)
    ensures Summarize(rows).targets <= |rows| && Summarize(rows).studies <= |rows|
    ensures Summarize(rows).contrasts <= |rows|
    ensures Summarize(rows).targets == 0 <==> forall r :: r in rows ==> r.id.None?
    ensures Summarize(rows).targetsWithDe == 0 <==>
      forall r :: r in rows && r.log2FoldChange.Some? ==> r.id.None?
    ensures Summarize(rows).studies == 0 <==> forall r :: r in rows ==> r.studyId.None?
    ensures Summarize(rows).contrasts == 0 <==> forall r :: r in rows ==> r.contrast.None?
    ensures rows == [] ==> Summarize(rows) == Counts(0, 0, 0, 0)
  {
    var de := Where(rows, HasFoldChange());
    if exists r :: r in rows && r.id.Some? {
      var r :| r in rows && r.id.Some?;
      assert r.id.value in DistinctValues(rows, IdOf);
    }
    if exists r :: r in de && r.id.Some? {
      var r :| r in de && r.id.Some?;
      assert r.id.value in DistinctValues(de, IdOf);
    }
    if exists r :: r in rows && r.studyId.Some? {
      var r :| r in rows && r.studyId.Some?;
      assert r.studyId.value in DistinctValues(rows, StudyOf);
    }
    if exists r :: r in rows && r.contrast.Some? {
      var r :| r in rows && r.contrast.Some?;
      assert r.contrast.value in DistinctValues(rows, ContrastOf);
    }
  }

  /** Two tables with the same rows carrying a value in a column have the same distinct values there. */
  lemma SameDistinctValues(a: seq<DiffRecord>, b: seq<DiffRecord>, column: DiffRecord -> Option<string>)
    requires forall r :: column(r).Some? ==> (r in a <==> r in b)
    ensures DistinctValues(a, column) == DistinctValues(b, column)
  {
    forall v ensures v in DistinctValues(a, column) <==> v in DistinctValues(b, column) {
      if v in DistinctValues(a, column) {
        var r :| r in a && column(r) == Some(v);
        assert r in b;
      }
      if v in DistinctValues(b, column) {
        var r :| r in b && column(r) == Some(v);
        assert r in a;
      }
    }
  }

  /** A row whose id, study and contrast are all missing changes none of the counts. */
  lemma NullsNotCounted(rows: seq<DiffRecord>, blank: DiffRecord)
    requires blank.id.None? && blank.studyId.None? && blank.contrast.None?
    ensures Summarize(rows + [blank]) == Summarize(rows)
  {
    var more := rows + [blank];
    assert forall r :: r in more <==> r in rows || r == blank;
    SameDistinctValues(more, rows, IdOf);
    SameDistinctValues(more, rows, StudyOf);
    SameDistinctValues(more, rows, ContrastOf);
    SameDistinctValues(Where(more, HasFoldChange()), Where(rows, HasFoldChange()), IdOf);
  }

  /** `unique` and `nunique` agree on the present ids; `unique` adds the missing one. */
  lemma IdSetAndTargets(rows: seq<DiffRecord>)
    ensures forall v :: Some(v) in IdSet(rows) <==> v in DistinctValues(rows, IdOf)
    ensures None in IdSet(rows) <==> exists r :: r in rows && r.id.None?
  {
  }
}
