/**
  The choices of the two select boxes: "All" followed by the distinct
  non-missing values of a column of the unfiltered table, sorted.
*/
module OptionLists {
  import opened Wrappers
  import opened Text
  import opened Records
  import opened Aggregate

  /** Sorted without repetitions. */
  predicate StrictlyIncreasing(s: seq<string>)
  {
    forall i, j :: 0 <= i < j < |s| ==> LexLess(s[i], s[j])
  }

  /** Insert a value into a strictly increasing list, unless it is already there. */
  function Insert(x: string, s: seq<string>): (r: seq<string>)
    requires StrictlyIncreasing(s)
    ensures StrictlyIncreasing(r)
    ensures forall y :: y in r <==> y == x || y in s
  {
    if s == [] then [x]
    else if x == s[0] then s
    else if LexLess(x, s[0]) then
      assert forall j :: 0 < j < |s| ==> LexLess(x, s[j]) by {
        forall j | 0 < j < |s| ensures LexLess(x, s[j]) {
          LexLessTransitive(x, s[0], s[j]);
        }
      }
      [x] + s
    else
      var rest := Insert(x, s[1..]);
      assert LexLess(s[0], x) by {
        LexLessTotal(x, s[0]);
      }
      assert forall k :: 0 <= k < |rest| ==> LexLess(s[0], rest[k]) by {
        forall k | 0 <= k < |rest| ensures LexLess(s[0], rest[k]) {
          assert rest[k] in rest;
        }
      }
      [s[0]] + rest
  }

  /** The distinct non-missing values of a column, sorted. */
  function SortedValues(rows: seq<DiffRecord>, column: DiffRecord -> Option<string>): (r: seq<string>)
    ensures StrictlyIncreasing(r)
    ensures forall v :: v in r <==> v in DistinctValues(rows, column)
  {
    if rows == [] then []
    else
      assert rows == [rows[0]] + rows[1..];
      match column(rows[0])
      case None => SortedValues(rows[1..], column)
      case Some(v) => Insert(v, SortedValues(rows[1..], column))
  }

  /** "All" followed by the sorted distinct values of a column. */
  function OptionList(rows: seq<DiffRecord>, column: DiffRecord -> Option<string>): (r: seq<string>)
    ensures |r| >= 1 && r[0] == All
    ensures StrictlyIncreasing(r[1..])
    ensures forall v :: v in r[1..] <==> exists row :: row in rows && column(row) == Some(v)
  {
    [All] + SortedValues(rows, column)
  }

  function ContrastOptions(rows: seq<DiffRecord>): seq<string>
  {
    OptionList(rows, ContrastOf)
  }

  function StudyOptions(rows: seq<DiffRecord>): seq<string>
  {
    OptionList(rows, StudyOf)
  }

  /**
    A strictly increasing list is determined by its elements: the option
    list is the one sorting the distinct values gives, however computed.
  */
  lemma {:induction false} StrictlyIncreasingUnique(a: seq<string>, b: seq<string>)
    requires StrictlyIncreasing(a) && StrictlyIncreasing(b)
    requires forall x :: x in a <==> x in b
    ensures a == b
    decreases |a|
  {
    if a != [] {
      assert a[0] in b;
    }
    if b != [] {
      assert b[0] in a;
    }
    if a != [] && b != [] {
      if a[0] != b[0] {
        var i :| 0 <= i < |a| && a[i] == b[0];
        var j :| 0 <= j < |b| && b[j] == a[0];
        assert i > 0 && j > 0;
        LexLessAsymmetric(a[0], a[i]);
        assert false;
      }
      assert a == [a[0]] + a[1..] && b == [b[0]] + b[1..];
      forall x ensures x in a[1..] <==> x in b[1..] {
        if x in a[1..] {
          var i :| 0 <= i < |a[1..]| && a[1..][i] == x;
          assert LexLess(a[0], a[i + 1]);
          LexLessIrreflexive(a[0]);
          assert x in b;
          var k :| 0 <= k < |b| && b[k] == x;
          assert k != 0 && b[1..][k - 1] == x;
        }
        if x in b[1..] {
          var j :| 0 <= j < |b[1..]| && b[1..][j] == x;
          assert LexLess(b[0], b[j + 1]);
          LexLessIrreflexive(b[0]);
          assert x in a;
          var k :| 0 <= k < |a| && a[k] == x;
          assert k != 0 && a[1..][k - 1] == x;
        }
      }
      StrictlyIncreasingUnique(a[1..], b[1..]);
    }
  }

  /** Each option list is "All" then the sorted distinct present values of its column. */
  lemma OptionListsAreSortedUniqueValues(rows: seq<DiffRecord>, sorted: seq<string>, column: DiffRecord -> Option<string>)
    requires StrictlyIncreasing(sorted)
    requires forall v :: v in sorted <==> exists row :: row in rows && column(row) == Some(v)
    ensures OptionList(rows, column) == [All] + sorted
  {
    var r := OptionList(rows, column);
    StrictlyIncreasingUnique(r[1..], sorted);
    assert r == [r[0]] + r[1..];
  }
}
