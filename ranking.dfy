/**
 * The ranking engine: the tie-break comparator, merge, merge sort and the
 * 1-based position numbering of the sorted rows.
 */
module Ranking {
  import opened Wrappers
  import opened Cells
  import opened Schema

  /** The sort-key fields are resolved, as validation and derivation leave them. */
  predicate ReadyToRank(res: Resolved)
  {
    && Team in res && Points in res && GD in res && GF in res && Wins in res
    && res[Points].Some? && res[GD].Some? && res[GF].Some? && res[Wins].Some?
  }

  /**
   * The number in a key column of a row. Coercion leaves a number in every
   * key cell before any comparison; a cell that is not a number reads as
   * WORST, the value coercion would give it.
   */
  function KeyValue(row: Row, col: string): int
  {
    if col in row && row[col].Num? then row[col].n else WORST
  }

  function PointsOf(res: Resolved, row: Row): int
    requires ReadyToRank(res)
  {
    KeyValue(row, res[Points].value)
  }

  function GoalDiffOf(res: Resolved, row: Row): int
    requires ReadyToRank(res)
  {
    KeyValue(row, res[GD].value)
  }

  function GoalsForOf(res: Resolved, row: Row): int
    requires ReadyToRank(res)
  {
    KeyValue(row, res[GF].value)
  }

  function WinsOf(res: Resolved, row: Row): int
    requires ReadyToRank(res)
  {
    KeyValue(row, res[Wins].value)
  }

  /** `str(row[team_col])`; every row has a cell in every column of its table. */
  function TeamText(res: Resolved, row: Row): string
    requires ReadyToRank(res) && res[Team].Some?
  {
    var col := res[Team].value;
    if col in row then CellText(row[col]) else ""
  }

  /** `comes_before`: descending on points, GD, GF, wins; then ascending team text if a team column is resolved. */
  predicate ComesBefore(res: Resolved, a: Row, b: Row)
    requires ReadyToRank(res)
  {
    if PointsOf(res, a) != PointsOf(res, b) then PointsOf(res, a) > PointsOf(res, b)
    else if GoalDiffOf(res, a) != GoalDiffOf(res, b) then GoalDiffOf(res, a) > GoalDiffOf(res, b)
    else if GoalsForOf(res, a) != GoalsForOf(res, b) then GoalsForOf(res, a) > GoalsForOf(res, b)
    else if WinsOf(res, a) != WinsOf(res, b) then WinsOf(res, a) > WinsOf(res, b)
    else if res[Team].Some? then LexLess(TeamText(res, a), TeamText(res, b))
    else false
  }

  /** The four numeric keys of a row, in precedence order. */
  function SortKey(res: Resolved, row: Row): seq<int>
    requires ReadyToRank(res)
  {
    [PointsOf(res, row), GoalDiffOf(res, row), GoalsForOf(res, row), WinsOf(res, row)]
  }

  /** Reference order on key tuples: greater at the first position where they differ. */
  predicate DescLexGreater(x: seq<int>, y: seq<int>)
    decreases |x|
  {
    if x == [] || y == [] then false
    else if x[0] != y[0] then x[0] > y[0]
    else DescLexGreater(x[1..], y[1..])
  }

  /** Two rows neither of which comes before the other. */
  predicate Tied(res: Resolved, a: Row, b: Row)
    requires ReadyToRank(res)
  {
    && SortKey(res, a) == SortKey(res, b)
    && (res[Team].Some? ==> TeamText(res, a) == TeamText(res, b))
  }

  /** The comparator is the descending lexicographic order on the four keys, then the team text. */
  lemma ComesBeforeIsLexicographic(res: Resolved, a: Row, b: Row)
    requires ReadyToRank(res)
    ensures ComesBefore(res, a, b) <==>
              || DescLexGreater(SortKey(res, a), SortKey(res, b))
              || (SortKey(res, a) == SortKey(res, b) && res[Team].Some?
                  && LexLess(TeamText(res, a), TeamText(res, b)))
  {
    var x, y := SortKey(res, a), SortKey(res, b);
    var x3, y3 := x[1..][1..][1..], y[1..][1..][1..];
    assert x3 == [WinsOf(res, a)] && y3 == [WinsOf(res, b)];
    assert x3[1..] == [] && y3[1..] == [];
    assert DescLexGreater(x3, y3) <==> WinsOf(res, a) > WinsOf(res, b);
    assert DescLexGreater(x[1..][1..], y[1..][1..]) <==>
             if GoalsForOf(res, a) != GoalsForOf(res, b) then GoalsForOf(res, a) > GoalsForOf(res, b)
             else WinsOf(res, a) > WinsOf(res, b);
    assert DescLexGreater(x[1..], y[1..]) <==>
             if GoalDiffOf(res, a) != GoalDiffOf(res, b) then GoalDiffOf(res, a) > GoalDiffOf(res, b)
             else DescLexGreater(x[1..][1..], y[1..][1..]);
  }

  lemma ComesBeforeIrreflexive(res: Resolved, a: Row)
    requires ReadyToRank(res)
    ensures !ComesBefore(res, a, a)
  {
    if res[Team].Some? {
      LexLessIrreflexive(TeamText(res, a));
    }
  }

  lemma ComesBeforeAsymmetric(res: Resolved, a: Row, b: Row)
    requires ReadyToRank(res)
    requires ComesBefore(res, a, b)
    ensures !ComesBefore(res, b, a)
  {
    if res[Team].Some? && SortKey(res, a) == SortKey(res, b) {
      LexLessAsymmetric(TeamText(res, a), TeamText(res, b));
    }
  }

  lemma ComesBeforeTransitive(res: Resolved, a: Row, b: Row, c: Row)
    requires ReadyToRank(res)
    ensures ComesBefore(res, a, b) && ComesBefore(res, b, c) ==> ComesBefore(res, a, c)
  {
    if res[Team].Some? {
      LexLessTransitive(TeamText(res, a), TeamText(res, b), TeamText(res, c));
    }
  }

  /** Neither row comes before the other exactly when they are tied on every key and on the team text (or there is no team column). */
  lemma TiedExactly(res: Resolved, a: Row, b: Row)
    requires ReadyToRank(res)
    ensures !ComesBefore(res, a, b) && !ComesBefore(res, b, a) <==> Tied(res, a, b)
  {
    if res[Team].Some? {
      LexLessTotal(TeamText(res, a), TeamText(res, b));
      LexLessIrreflexive(TeamText(res, a));
    }
  }

  /** "Not before" is transitive: the comparator is a strict weak order. */
  lemma NotBeforeTransitive(res: Resolved, a: Row, b: Row, c: Row)
    requires ReadyToRank(res)
    requires !ComesBefore(res, a, b) && !ComesBefore(res, b, c)
    ensures !ComesBefore(res, a, c)
  {
    if res[Team].Some? {
      var ta, tb, tc := TeamText(res, a), TeamText(res, b), TeamText(res, c);
      LexLessTotal(ta, tb);
      LexLessTotal(tb, tc);
      LexLessTransitive(tb, ta, tc);
      LexLessTransitive(ta, tc, tb);
    }
  }

  /** A row whose points are the sentinel comes after every row with real points above it, whatever its other keys. */
  lemma SentinelPointsLose(res: Resolved, a: Row, b: Row)
    requires ReadyToRank(res)
    requires PointsOf(res, a) == WORST < PointsOf(res, b)
    ensures ComesBefore(res, b, a) && !ComesBefore(res, a, b)
  {
  }

  /** No later row comes before an earlier one. */
  predicate Sorted(res: Resolved, s: seq<Row>)
    requires ReadyToRank(res)
  {
    forall i, j :: 0 <= i < j < |s| ==> !ComesBefore(res, s[j], s[i])
  }

  /** In a sorted list, a row whose points are the sentinel comes after every row with real points. */
  lemma SentinelRowsSortLast(res: Resolved, s: seq<Row>, i: int, j: int)
    requires ReadyToRank(res) && Sorted(res, s)
    requires 0 <= i < |s| && 0 <= j < |s|
    requires PointsOf(res, s[i]) == WORST < PointsOf(res, s[j])
    ensures j < i
  {
    SentinelPointsLose(res, s[i], s[j]);
  }

  /** The result `merge` computes: on a tie the right head goes first. */
  function Merged(res: Resolved, left: seq<Row>, right: seq<Row>): seq<Row>
    requires ReadyToRank(res)
    decreases |left| + |right|
  {
    if left == [] then right
    else if right == [] then left
    else if ComesBefore(res, left[0], right[0]) then [left[0]] + Merged(res, left[1..], right)
    else [right[0]] + Merged(res, left, right[1..])
  }

  /** Merging keeps every row exactly once: the result is a permutation of `left + right`. */
  lemma {:induction false} MergedPermutation(res: Resolved, left: seq<Row>, right: seq<Row>)
    requires ReadyToRank(res)
    ensures |Merged(res, left, right)| == |left| + |right|
    ensures multiset(Merged(res, left, right)) == multiset(left + right)
    decreases |left| + |right|
  {
    if left != [] && right != [] {
      assert left == [left[0]] + left[1..];
      assert right == [right[0]] + right[1..];
      if ComesBefore(res, left[0], right[0]) {
        MergedPermutation(res, left[1..], right);
        assert left + right == [left[0]] + (left[1..] + right);
      } else {
        MergedPermutation(res, left, right[1..]);
        assert multiset(left + right) == multiset([right[0]]) + multiset(left + right[1..]);
      }
    } else if left == [] {
      assert left + right == right;
    } else {
      assert left + right == left;
    }
  }

  /** When the left head does not come before the right head, the right head is emitted first. */
  lemma MergedTakesRightOnTie(res: Resolved, left: seq<Row>, right: seq<Row>)
    requires ReadyToRank(res)
    requires left != [] && right != []
    ensures Merged(res, left, right)[0] == if ComesBefore(res, left[0], right[0]) then left[0] else right[0]
  {
  }

  lemma {:induction false} SortedCons(res: Resolved, h: Row, s: seq<Row>)
    requires ReadyToRank(res)
    requires Sorted(res, s)
    requires forall x :: x in s ==> !ComesBefore(res, x, h)
    ensures Sorted(res, [h] + s)
  {
    var t := [h] + s;
    forall i, j | 0 <= i < j < |t| ensures !ComesBefore(res, t[j], t[i]) {
      assert t[j] == s[j - 1];
      if i > 0 { assert t[i] == s[i - 1]; }
    }
  }

  /** Merging two sorted lists gives a sorted list. */
  lemma {:induction false} MergedSorted(res: Resolved, left: seq<Row>, right: seq<Row>)
    requires ReadyToRank(res)
    requires Sorted(res, left) && Sorted(res, right)
    ensures Sorted(res, Merged(res, left, right))
    decreases |left| + |right|
  {
    MergedPermutation(res, left, right);
    if left != [] && right != [] {
      var l0, r0 := left[0], right[0];
      if ComesBefore(res, l0, r0) {
        var rest := Merged(res, left[1..], right);
        MergedSorted(res, left[1..], right);
        MergedPermutation(res, left[1..], right);
        forall x | x in rest ensures !ComesBefore(res, x, l0) {
          assert x in multiset(left[1..] + right);
          if x in left[1..] {
            var k :| 1 <= k < |left| && left[k] == x;
          } else {
            var k :| 0 <= k < |right| && right[k] == x;
            if k == 0 { ComesBeforeIrreflexive(res, r0); } else { assert !ComesBefore(res, right[k], right[0]); }
            ComesBeforeTransitive(res, x, l0, r0);
          }
        }
        SortedCons(res, l0, rest);
      } else {
        var rest := Merged(res, left, right[1..]);
        MergedSorted(res, left, right[1..]);
        MergedPermutation(res, left, right[1..]);
        forall x | x in rest ensures !ComesBefore(res, x, r0) {
          assert x in multiset(left + right[1..]);
          if x in right[1..] {
            var k :| 1 <= k < |right| && right[k] == x;
          } else {
            var k :| 0 <= k < |left| && left[k] == x;
            if k > 0 {
              assert !ComesBefore(res, left[k], left[0]);
              NotBeforeTransitive(res, x, l0, r0);
            }
          }
        }
        SortedCons(res, r0, rest);
      }
    }
  }

  lemma AppendAssociative<T>(a: seq<T>, b: seq<T>, c: seq<T>)
    ensures (a + b) + c == a + (b + c)
  {
  }

  lemma SuffixCons<T>(s: seq<T>, i: nat)
    requires i < |s|
    ensures s[i..] == [s[i]] + s[i + 1..]
  {
  }

  lemma AppendEmpty<T>(a: seq<T>, b: seq<T>)
    requires b == []
    ensures a + b == a
  {
  }

  /** The merge of the suffixes `left[i..]` and `right[j..]`, by index. */
  function MergeFrom(res: Resolved, left: seq<Row>, right: seq<Row>, i: nat, j: nat): seq<Row>
    requires ReadyToRank(res) && i <= |left| && j <= |right|
    decreases |left| - i + |right| - j
  {
    if i == |left| then right[j..]
    else if j == |right| then left[i..]
    else if ComesBefore(res, left[i], right[j]) then [left[i]] + MergeFrom(res, left, right, i + 1, j)
    else [right[j]] + MergeFrom(res, left, right, i, j + 1)
  }

  lemma {:induction false} MergeFromSuffixes(res: Resolved, left: seq<Row>, right: seq<Row>, i: nat, j: nat)
    requires ReadyToRank(res) && i <= |left| && j <= |right|
    ensures MergeFrom(res, left, right, i, j) == Merged(res, left[i..], right[j..])
    decreases |left| - i + |right| - j
  {
    if i < |left| && j < |right| {
      assert left[i..][1..] == left[i + 1..];
      assert right[j..][1..] == right[j + 1..];
      if ComesBefore(res, left[i], right[j]) {
        MergeFromSuffixes(res, left, right, i + 1, j);
      } else {
        MergeFromSuffixes(res, left, right, i, j + 1);
      }
    }
  }

  /** `merge`: the two-index loop, then the leftovers of each side. */
  method Merge(res: Resolved, left: seq<Row>, right: seq<Row>) returns (merged: seq<Row>)
    requires ReadyToRank(res)
    ensures merged == Merged(res, left, right)
  {
    ghost var target := MergeFrom(res, left, right, 0, 0);
    var i, j := 0, 0;
    merged := [];
    while i < |left| && j < |right|
      invariant 0 <= i <= |left| && 0 <= j <= |right|
      invariant merged + MergeFrom(res, left, right, i, j) == target
      decreases |left| - i + |right| - j
    {
      if ComesBefore(res, left[i], right[j]) {
        AppendAssociative(merged, [left[i]], MergeFrom(res, left, right, i + 1, j));
        merged := merged + [left[i]];
        i := i + 1;
      } else {
        AppendAssociative(merged, [right[j]], MergeFrom(res, left, right, i, j + 1));
        merged := merged + [right[j]];
        j := j + 1;
      }
    }
    while i < |left|
      invariant 0 <= i <= |left| && (i < |left| ==> j == |right|) && j <= |right|
      invariant merged + MergeFrom(res, left, right, i, j) == target
    {
      SuffixCons(left, i);
      AppendAssociative(merged, [left[i]], MergeFrom(res, left, right, i + 1, j));
      merged := merged + [left[i]];
      i := i + 1;
    }
    while j < |right|
      invariant i == |left| && 0 <= j <= |right|
      invariant merged + MergeFrom(res, left, right, i, j) == target
    {
      SuffixCons(right, j);
      AppendAssociative(merged, [right[j]], MergeFrom(res, left, right, i, j + 1));
      merged := merged + [right[j]];
      j := j + 1;
    }
    AppendEmpty(merged, right[j..]);
    MergeFromSuffixes(res, left, right, 0, 0);
    assert left[0..] == left && right[0..] == right;
  }

  /** The result `merge_sort_rows` computes: split at the midpoint, sort both halves, merge. */
  function MergeSorted(res: Resolved, rows: seq<Row>): seq<Row>
    requires ReadyToRank(res)
    decreases |rows|
  {
    if |rows| <= 1 then rows
    else
      var mid := |rows| / 2;
      Merged(res, MergeSorted(res, rows[..mid]), MergeSorted(res, rows[mid..]))
  }

  /** The sort keeps every row exactly once, and returns a list of at most one row unchanged. */
  lemma {:induction false} MergeSortedPermutation(res: Resolved, rows: seq<Row>)
    requires ReadyToRank(res)
    ensures |MergeSorted(res, rows)| == |rows|
    ensures multiset(MergeSorted(res, rows)) == multiset(rows)
    ensures |rows| <= 1 ==> MergeSorted(res, rows) == rows
    decreases |rows|
  {
    if |rows| > 1 {
      var mid := |rows| / 2;
      assert rows == rows[..mid] + rows[mid..];
      var left, right := MergeSorted(res, rows[..mid]), MergeSorted(res, rows[mid..]);
      MergeSortedPermutation(res, rows[..mid]);
      MergeSortedPermutation(res, rows[mid..]);
      MergedPermutation(res, left, right);
    }
  }

  /** The sort's output is ordered by the comparator. */
  lemma {:induction false} MergeSortedSorted(res: Resolved, rows: seq<Row>)
    requires ReadyToRank(res)
    ensures Sorted(res, MergeSorted(res, rows))
    decreases |rows|
  {
    if |rows| > 1 {
      var mid := |rows| / 2;
      MergeSortedSorted(res, rows[..mid]);
      MergeSortedSorted(res, rows[mid..]);
      MergedSorted(res, MergeSorted(res, rows[..mid]), MergeSorted(res, rows[mid..]));
    }
  }

  /** Two fully tied rows come out in the reverse of their input order: the merge takes the right head on a tie. */
  lemma FullyTiedPairIsReversed(res: Resolved, a: Row, b: Row)
    requires ReadyToRank(res)
    requires Tied(res, a, b)
    ensures MergeSorted(res, [a, b]) == [b, a]
  {
    TiedExactly(res, a, b);
    var rows := [a, b];
    assert rows[..1] == [a] && rows[1..] == [b];
    assert MergeSorted(res, [a]) == [a] && MergeSorted(res, [b]) == [b];
    assert Merged(res, [a], [b]) == [b] + Merged(res, [a], []);
  }

  /** `merge_sort_rows`: recursion on the two halves, then `merge`. */
  method MergeSortRows(res: Resolved, rows: seq<Row>) returns (sorted: seq<Row>)
    requires ReadyToRank(res)
    ensures sorted == MergeSorted(res, rows)
    decreases |rows|
  {
    if |rows| <= 1 {
      sorted := rows;
    } else {
      var mid := |rows| / 2;
      var left := MergeSortRows(res, rows[..mid]);
      var right := MergeSortRows(res, rows[mid..]);
      sorted := Merge(res, left, right);
    }
  }

  /** The column the script inserts at the front of the sorted table (Assignment1.py:117). */
  const PositionColumn: string := "Position"

  /** The rows with Position cells counting up from `first`. */
  function NumberedFrom(rows: seq<Row>, first: int): (r: seq<Row>)
    ensures |r| == |rows|
    decreases |rows|
  {
    if rows == [] then [] else [rows[0][PositionColumn := Num(first)]] + NumberedFrom(rows[1..], first + 1)
  }

  lemma {:induction false} NumberedFromAt(rows: seq<Row>, first: int)
    ensures forall i :: 0 <= i < |rows| ==> NumberedFrom(rows, first)[i] == rows[i][PositionColumn := Num(first + i)]
    decreases |rows|
  {
    if rows != [] {
      NumberedFromAt(rows[1..], first + 1);
      forall i | 0 < i < |rows| ensures NumberedFrom(rows, first)[i] == rows[i][PositionColumn := Num(first + i)] {
        assert rows[1..][i - 1] == rows[i];
      }
    }
  }

  /** Each row gets its 1-based position in the final order (Assignment1.py:117). */
  function Numbered(rows: seq<Row>): seq<Row>
  {
    NumberedFrom(rows, 1)
  }

  /** Positions are exactly 1..n, with no gap and no repeat, and the rest of each row is kept. */
  lemma NumberedPositions(rows: seq<Row>)
    ensures |Numbered(rows)| == |rows|
    ensures forall i :: 0 <= i < |rows| ==> PositionColumn in Numbered(rows)[i]
    ensures forall i :: 0 <= i < |rows| ==> Numbered(rows)[i][PositionColumn] == Num(i + 1)
    ensures forall i, j :: 0 <= i < j < |rows| ==> Numbered(rows)[i][PositionColumn].n < Numbered(rows)[j][PositionColumn].n
    ensures forall p :: 1 <= p <= |rows| ==> Numbered(rows)[p - 1][PositionColumn] == Num(p)
    ensures forall i, c :: 0 <= i < |rows| && c in rows[i] && c != PositionColumn ==>
              c in Numbered(rows)[i] && Numbered(rows)[i][c] == rows[i][c]
  {
    NumberedFromAt(rows, 1);
  }

  /** A prepared row of the example table: team, points, derived GD, GF, wins. */
  function TeamRow(name: string, p: int, gd: int, gf: int, w: int): Row
  {
    map["Team" := Text(name), "P" := Num(p), "GF" := Num(gf), "__GD__" := Num(gd), "W" := Num(w)]
  }

  /**
   * Three teams without a GD column: C leads on points, and A and B, tied on
   * every key, are ordered by name.
   */
  lemma ExampleStandingsOrder()
    ensures var res := map[Team := Some("Team"), Points := Some("P"), GF := Some("GF"), GA := Some("GA"), GD := Some("__GD__"), Wins := Some("W")];
            var b, a, c := TeamRow("B", 10, 2, 5, 3), TeamRow("A", 10, 2, 5, 3), TeamRow("C", 12, -8, 1, 4);
            ReadyToRank(res) && MergeSorted(res, [b, a, c]) == [c, a, b]
  {
    var res := map[Team := Some("Team"), Points := Some("P"), GF := Some("GF"), GA := Some("GA"), GD := Some("__GD__"), Wins := Some("W")];
    var b, a, c := TeamRow("B", 10, 2, 5, 3), TeamRow("A", 10, 2, 5, 3), TeamRow("C", 12, -8, 1, 4);
    assert PointsOf(res, b) == 10 && PointsOf(res, a) == 10 && PointsOf(res, c) == 12;
    assert !ComesBefore(res, a, c) && !ComesBefore(res, b, c);
    assert TeamText(res, a) == "A" && TeamText(res, b) == "B";
    assert !ComesBefore(res, b, a);
    assert MergeSorted(res, [a]) == [a] && MergeSorted(res, [b]) == [b] && MergeSorted(res, [c]) == [c];
    assert [a, c][..1] == [a] && [a, c][1..] == [c];
    assert Merged(res, [a], [c]) == [c] + Merged(res, [a], []);
    assert MergeSorted(res, [a, c]) == [c, a];
    assert [b, a, c][..1] == [b] && [b, a, c][1..] == [a, c];
    assert Merged(res, [b], [a]) == [a] + Merged(res, [b], []);
    assert Merged(res, [b], [c, a]) == [c] + Merged(res, [b], [a]);
  }
}
