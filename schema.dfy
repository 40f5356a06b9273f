/**
 * Schema resolution for a standings table: which input column backs each
 * semantic field, which required fields are missing, the derived
 * goal-difference column, and the numeric coercion of the ranking columns.
 */
module Schema {
  import opened Wrappers
  import opened Cells

  /** The semantic fields: the keys "team", "points", "gf", "ga", "gd" and "wins". */
  datatype Field = Team | Points | GF | GA | GD | Wins

  /** Semantic field to the column that backs it, or None. */
  type Resolved = map<Field, Option<string>>

  /** The semantic fields, in the order the candidate table lists them. */
  const FieldOrder: seq<Field> := [Team, Points, GF, GA, GD, Wins]

  /** `col_map_candidates`: for each semantic field, its accepted column names, best first. */
  function Candidates(f: Field): seq<string>
  {
    match f
    case Team => ["Team Name", "Team", "team", "Club", "club, ", "Name"]
    case Points => ["P", "Pts", "Points", "points"]
    case GF => ["GF", "Goals For", "For", "goals_for"]
    case GA => ["GA", "Goals Against", "Against", "goals_against"]
    case GD => ["GD", "Goal Difference", "goal_difference"]
    case Wins => ["W", "Wins", "wins"]
  }

  /** The fields whose columns are coerced to numbers, in coercion order. */
  const NumericFields: seq<Field> := [Points, GF, GA, GD, Wins]

  /** The name of the goal-difference column synthesised from GF and GA. */
  const DerivedGD: string := "__GD__"

  /** Every row has a cell for exactly the columns of the catalogue. */
  ghost predicate WellFormed(columns: seq<string>, rows: seq<Row>)
  {
    forall i, c :: 0 <= i < |rows| ==> (c in rows[i] <==> c in columns)
  }

  /** `find_col`: the first candidate that is a column of the table. */
  function FindCol(columns: seq<string>, candidates: seq<string>): (r: Option<string>)
    ensures r.None? <==> forall c :: c in candidates ==> c !in columns
    ensures r.Some? ==> r.value in candidates && r.value in columns
  {
    if candidates == [] then None
    else if candidates[0] in columns then Some(candidates[0])
    else FindCol(columns, candidates[1..])
  }

  /** The earliest candidate present in the catalogue is the one found. */
  lemma {:induction false} FindColIsEarliest(columns: seq<string>, candidates: seq<string>, i: nat)
    requires i < |candidates| && candidates[i] in columns
    requires forall j :: 0 <= j < i ==> candidates[j] !in columns
    ensures FindCol(columns, candidates) == Some(candidates[i])
  {
    if i > 0 {
      FindColIsEarliest(columns, candidates[1..], i - 1);
    }
  }

  /** What is found is a candidate none of whose predecessors is a column. */
  lemma {:induction false} FindColFindsEarliest(columns: seq<string>, candidates: seq<string>)
    requires FindCol(columns, candidates).Some?
    ensures exists i :: 0 <= i < |candidates| && candidates[i] == FindCol(columns, candidates).value
                        && forall j :: 0 <= j < i ==> candidates[j] !in columns
  {
    if candidates[0] !in columns {
      var rest := candidates[1..];
      FindColFindsEarliest(columns, rest);
      var i :| 0 <= i < |rest| && rest[i] == FindCol(columns, rest).value
               && forall j :: 0 <= j < i ==> rest[j] !in columns;
      assert candidates[i + 1] == rest[i];
      assert forall j :: 0 <= j < i + 1 ==> candidates[j] !in columns by {
        forall j | 0 <= j < i + 1 ensures candidates[j] !in columns {
          if j > 0 { assert candidates[j] == rest[j - 1]; }
        }
      }
    }
  }

  /** The resolved mapping the resolve loop builds for a catalogue. */
  function Resolution(columns: seq<string>): Resolved
  {
    map[Team := FindCol(columns, Candidates(Team)), Points := FindCol(columns, Candidates(Points)),
        GF := FindCol(columns, Candidates(GF)), GA := FindCol(columns, Candidates(GA)),
        GD := FindCol(columns, Candidates(GD)), Wins := FindCol(columns, Candidates(Wins))]
  }

  /** Every semantic field is listed once in the resolve order. */
  lemma EveryFieldListed()
    ensures forall k: Field :: k in FieldOrder
  {
    forall k: Field ensures k in FieldOrder {
      match k
      case Team => assert FieldOrder[0] == k;
      case Points => assert FieldOrder[1] == k;
      case GF => assert FieldOrder[2] == k;
      case GA => assert FieldOrder[3] == k;
      case GD => assert FieldOrder[4] == k;
      case Wins => assert FieldOrder[5] == k;
    }
  }

  /** The resolution records `find_col` of each field's candidates. */
  lemma ResolutionEntries(columns: seq<string>)
    ensures forall k: Field :: k in Resolution(columns) && Resolution(columns)[k] == FindCol(columns, Candidates(k))
  {
    var r := Resolution(columns);
    forall k: Field ensures k in r && r[k] == FindCol(columns, Candidates(k)) {
      match k
      case Team => assert r[Team] == FindCol(columns, Candidates(Team));
      case Points => assert r[Points] == FindCol(columns, Candidates(Points));
      case GF => assert r[GF] == FindCol(columns, Candidates(GF));
      case GA => assert r[GA] == FindCol(columns, Candidates(GA));
      case GD => assert r[GD] == FindCol(columns, Candidates(GD));
      case Wins => assert r[Wins] == FindCol(columns, Candidates(Wins));
    }
  }

  /** A mapping with an entry for every semantic field. */
  predicate IsResolution(res: Resolved)
  {
    Team in res && Points in res && GF in res && GA in res && GD in res && Wins in res
  }

  /** `resolved.get(k)`. */
  function Get(res: Resolved, k: Field): Option<string>
  {
    if k in res then res[k] else None
  }

  /** No candidate of field `k` is a column of the catalogue. */
  predicate NoAlias(columns: seq<string>, k: Field)
  {
    forall c :: c in Candidates(k) ==> c !in columns
  }

  lemma ResolutionMeaning(columns: seq<string>, k: Field)
    ensures IsResolution(Resolution(columns))
    ensures Resolution(columns)[k].None? <==> NoAlias(columns, k)
    ensures Resolution(columns)[k].Some? ==> Resolution(columns)[k].value in columns
  {
  }

  /** An entry of `missing_core`: a field's key, or the label "ga_or_gd". */
  datatype MissingEntry = FieldMissing(field: Field) | GaOrGdMissing

  /** The entries of the fields in `ks` that resolved to nothing, in the order of `ks` (Assignment1.py:33). */
  function UnresolvedOf(res: Resolved, ks: seq<Field>): (r: seq<MissingEntry>)
    requires forall k :: k in ks ==> k in res
    ensures forall e :: e in r <==> e.FieldMissing? && e.field in ks && res[e.field].None?
  {
    if ks == [] then []
    else (if res[ks[0]].None? then [FieldMissing(ks[0])] else []) + UnresolvedOf(res, ks[1..])
  }

  /** `missing_core`: unresolved team, points, wins, gf, and "ga_or_gd" when both GA and GD are. */
  function MissingCore(res: Resolved): (m: seq<MissingEntry>)
    requires IsResolution(res)
    ensures FieldMissing(Team) in m <==> res[Team].None?
    ensures FieldMissing(Points) in m <==> res[Points].None?
    ensures FieldMissing(Wins) in m <==> res[Wins].None?
    ensures FieldMissing(GF) in m <==> res[GF].None?
    ensures FieldMissing(GA) !in m && FieldMissing(GD) !in m
    ensures GaOrGdMissing in m <==> res[GA].None? && res[GD].None?
  {
    UnresolvedOf(res, [Team, Points, Wins])
    + (if res[GF].None? then [FieldMissing(GF)] else [])
    + (if res[GA].None? && res[GD].None? then [GaOrGdMissing] else [])
  }

  /** Where an entry stands in `missing_core`: the listed fields, then gf, then "ga_or_gd". */
  function EntryRank(e: MissingEntry): int
  {
    match e
    case FieldMissing(Team) => 0
    case FieldMissing(Points) => 1
    case FieldMissing(Wins) => 2
    case FieldMissing(GF) => 3
    case GaOrGdMissing => 4
    case FieldMissing(_) => 5
  }

  /** Entries strictly in `missing_core` order, so none twice. */
  predicate InEntryOrder(m: seq<MissingEntry>)
  {
    forall i, j :: 0 <= i < j < |m| ==> EntryRank(m[i]) < EntryRank(m[j])
  }

  lemma InEntryOrderAppend(a: seq<MissingEntry>, b: seq<MissingEntry>)
    requires InEntryOrder(a) && InEntryOrder(b)
    requires forall x, y :: x in a && y in b ==> EntryRank(x) < EntryRank(y)
    ensures InEntryOrder(a + b)
  {
    var c := a + b;
    forall i, j | 0 <= i < j < |c| ensures EntryRank(c[i]) < EntryRank(c[j]) {
      if j < |a| {
        assert c[i] == a[i] && c[j] == a[j];
      } else if i >= |a| {
        assert c[i] == b[i - |a|] && c[j] == b[j - |a|];
      } else {
        assert c[i] == a[i] && c[j] == b[j - |a|];
      }
    }
  }

  /** The comprehension keeps the order of the fields it runs over. */
  lemma {:induction false} UnresolvedOfOrdered(res: Resolved, ks: seq<Field>)
    requires forall k :: k in ks ==> k in res
    requires forall i, j :: 0 <= i < j < |ks| ==> EntryRank(FieldMissing(ks[i])) < EntryRank(FieldMissing(ks[j]))
    ensures InEntryOrder(UnresolvedOf(res, ks))
  {
    if ks != [] {
      var rest := UnresolvedOf(res, ks[1..]);
      var head := if res[ks[0]].None? then [FieldMissing(ks[0])] else [];
      UnresolvedOfOrdered(res, ks[1..]);
      forall x, y | x in head && y in rest ensures EntryRank(x) < EntryRank(y) {
        var k :| 0 <= k < |ks[1..]| && ks[1..][k] == y.field;
        assert ks[k + 1] == y.field;
      }
      InEntryOrderAppend(head, rest);
    }
  }

  /** `missing_core` lists each entry once, in the order the script appends them. */
  lemma MissingCoreOrdered(res: Resolved)
    requires IsResolution(res)
    ensures InEntryOrder(MissingCore(res))
  {
    var listed := UnresolvedOf(res, [Team, Points, Wins]);
    UnresolvedOfOrdered(res, [Team, Points, Wins]);
    var gf: seq<MissingEntry> := if res[GF].None? then [FieldMissing(GF)] else [];
    var gaGd: seq<MissingEntry> := if res[GA].None? && res[GD].None? then [GaOrGdMissing] else [];
    forall x | x in listed ensures EntryRank(x) <= 2 {
      assert x.FieldMissing? && x.field in [Team, Points, Wins];
    }
    assert forall y :: y in gf ==> EntryRank(y) == 3;
    assert forall y :: y in gaGd ==> EntryRank(y) == 4;
    InEntryOrderAppend(listed, gf);
    InEntryOrderAppend(listed + gf, gaGd);
  }

  /** The error the run raises when the schema cannot be ranked. */
  datatype SchemaError =
    | RequiredColumnsMissing(missing: seq<MissingEntry>)
    | NoGoalDifferenceSource

  /** The two hard checks, on the mapping after derivation. */
  function Validate(res: Resolved, missing: seq<MissingEntry>): (e: Option<SchemaError>)
    requires IsResolution(res)
    ensures e.None? <==> res[Points].Some? && res[Wins].Some? && res[GF].Some?
                         && (res[GD].Some? || res[GA].Some?)
    ensures e == Some(NoGoalDifferenceSource) ==> res[GD].None? && res[GA].None?
  {
    if res[Points].None? || res[Wins].None? || res[GF].None? then Some(RequiredColumnsMissing(missing))
    else if res[GD].None? && res[GA].None? then Some(NoGoalDifferenceSource)
    else None
  }

  /** Goal difference is absent but derivable from GF and GA. */
  predicate NeedsDerivedGD(res: Resolved)
    requires IsResolution(res)
  {
    res[GD].None? && res[GF].Some? && res[GA].Some?
  }

  /** `GF - GA` on one pair of cells; a non-numeric operand gives an empty cell. */
  function Difference(gf: Cell, ga: Cell): Cell
  {
    if gf.Num? && ga.Num? then Num(gf.n - ga.n) else Missing
  }

  /** The cell of `row` in column `c`, empty when the row has none. */
  function CellAt(row: Row, c: string): Cell
  {
    if c in row then row[c] else Missing
  }

  /** One row with the derived goal-difference cell set to `GF - GA`. */
  function DeriveRow(row: Row, gf: string, ga: string): Row
  {
    row[DerivedGD := Difference(CellAt(row, gf), CellAt(row, ga))]
  }

  /** Every row with its derived goal-difference cell, GF minus GA (Assignment1.py:43). */
  function WithGoalDifference(rows: seq<Row>, gf: string, ga: string): (r: seq<Row>)
    ensures |r| == |rows|
    decreases |rows|
  {
    if rows == [] then [] else [DeriveRow(rows[0], gf, ga)] + WithGoalDifference(rows[1..], gf, ga)
  }

  lemma {:induction false} WithGoalDifferenceAt(rows: seq<Row>, gf: string, ga: string)
    ensures forall i :: 0 <= i < |rows| ==> WithGoalDifference(rows, gf, ga)[i] == DeriveRow(rows[i], gf, ga)
    decreases |rows|
  {
    if rows != [] {
      WithGoalDifferenceAt(rows[1..], gf, ga);
      forall i | 0 < i < |rows| ensures WithGoalDifference(rows, gf, ga)[i] == DeriveRow(rows[i], gf, ga) {
        assert rows[1..][i - 1] == rows[i];
      }
    }
  }

  /** The catalogue after a column is assigned (Assignment1.py:43): the column is added once, at the end. */
  function WithColumn(columns: seq<string>, c: string): (r: seq<string>)
    ensures forall x :: x in r <==> x in columns || x == c
  {
    if c in columns then columns else columns + [c]
  }

  lemma {:induction false} GoalDifferenceDerived(columns: seq<string>, rows: seq<Row>, gf: string, ga: string)
    requires WellFormed(columns, rows) && gf in columns && ga in columns
    ensures WellFormed(WithColumn(columns, DerivedGD), WithGoalDifference(rows, gf, ga))
    ensures forall i :: 0 <= i < |rows| ==>
              var r := WithGoalDifference(rows, gf, ga)[i];
              && r[DerivedGD] == Difference(rows[i][gf], rows[i][ga])
              && (rows[i][gf].Num? && rows[i][ga].Num? ==> r[DerivedGD] == Num(rows[i][gf].n - rows[i][ga].n))
              && forall c :: c in rows[i] && c != DerivedGD ==> c in r && r[c] == rows[i][c]
  {
    WithGoalDifferenceAt(rows, gf, ga);
  }

  /** The derivation step on the mapping: only "gd" changes, to the derived column. */
  function ResolveDerived(res: Resolved): (r: Resolved)
    requires IsResolution(res)
    ensures IsResolution(r) && !NeedsDerivedGD(r)
    ensures NeedsDerivedGD(res) ==> r[GD] == Some(DerivedGD)
    ensures !NeedsDerivedGD(res) ==> r == res
    ensures forall k :: k in res && k != GD ==> k in r && r[k] == res[k]
    ensures r.Keys == res.Keys
  {
    if NeedsDerivedGD(res) then res[GD := Some(DerivedGD)] else res
  }

  /** Every resolved field names a column of the catalogue. */
  ghost predicate ResolvedInTable(columns: seq<string>, res: Resolved)
  {
    forall k :: k in res && res[k].Some? ==> res[k].value in columns
  }

  lemma ResolutionInTable(columns: seq<string>)
    ensures IsResolution(Resolution(columns)) && ResolvedInTable(columns, Resolution(columns))
  {
  }

  /** The catalogue after the derivation step (Assignment1.py:42-44). */
  function DerivedColumns(columns: seq<string>, res: Resolved): seq<string>
    requires IsResolution(res)
  {
    if NeedsDerivedGD(res) then WithColumn(columns, DerivedGD) else columns
  }

  /** The rows after the derivation step (Assignment1.py:42-44). */
  function DerivedRows(columns: seq<string>, rows: seq<Row>, res: Resolved): (r: seq<Row>)
    requires IsResolution(res)
    ensures |r| == |rows|
  {
    if NeedsDerivedGD(res) then WithGoalDifference(rows, res[GF].value, res[GA].value) else rows
  }

  /** Derivation keeps the table well formed and every resolved column in it. */
  lemma DerivationKeepsTable(columns: seq<string>, rows: seq<Row>, res: Resolved)
    requires IsResolution(res) && WellFormed(columns, rows) && ResolvedInTable(columns, res)
    ensures WellFormed(DerivedColumns(columns, res), DerivedRows(columns, rows, res))
    ensures ResolvedInTable(DerivedColumns(columns, res), ResolveDerived(res))
    ensures |DerivedRows(columns, rows, res)| == |rows|
  {
    if NeedsDerivedGD(res) {
      GoalDifferenceDerived(columns, rows, res[GF].value, res[GA].value);
    }
  }

  /** One cell of column `col` coerced to a number. */
  function CoerceRow(row: Row, col: string): Row
  {
    if col in row then row[col := ToNumeric(row[col])] else row
  }

  /** One column with every cell coerced to a number, non-numbers to WORST (Assignment1.py:50). */
  function CoerceColumn(rows: seq<Row>, col: string): (r: seq<Row>)
    ensures |r| == |rows|
    decreases |rows|
  {
    if rows == [] then [] else [CoerceRow(rows[0], col)] + CoerceColumn(rows[1..], col)
  }

  lemma {:induction false} CoerceColumnAt(rows: seq<Row>, col: string)
    ensures forall i :: 0 <= i < |rows| ==> CoerceColumn(rows, col)[i] == CoerceRow(rows[i], col)
    decreases |rows|
  {
    if rows != [] {
      CoerceColumnAt(rows[1..], col);
      forall i | 0 < i < |rows| ensures CoerceColumn(rows, col)[i] == CoerceRow(rows[i], col) {
        assert rows[1..][i - 1] == rows[i];
      }
    }
  }

  /** The column coerced for field `k`, if it is resolved and in the table. */
  function CoercedColumnOf(columns: seq<string>, res: Resolved, k: Field): Option<string>
  {
    var col := Get(res, k);
    if col.Some? && col.value in columns then col else None
  }

  /** The coercion loop run over the fields `ks`, in order. */
  function CoerceFields(columns: seq<string>, rows: seq<Row>, res: Resolved, ks: seq<Field>): (r: seq<Row>)
    ensures |r| == |rows|
    decreases |ks|
  {
    if ks == [] then rows
    else
      var before := CoerceFields(columns, rows, res, ks[..|ks| - 1]);
      var col := CoercedColumnOf(columns, res, ks[|ks| - 1]);
      if col.Some? then CoerceColumn(before, col.value) else before
  }

  /** The set of columns the coercion loop over `ks` rewrites. */
  function CoercedColumns(columns: seq<string>, res: Resolved, ks: seq<Field>): set<string>
  {
    set k | k in ks && CoercedColumnOf(columns, res, k).Some? :: CoercedColumnOf(columns, res, k).value
  }

  /**
   * Coercion rewrites each cell of a coerced column to its numeric value
   * (a number stays, anything else becomes WORST), keeps every other cell,
   * and keeps every row's set of columns.
   */
  lemma {:induction false} CoerceFieldsMeaning(columns: seq<string>, rows: seq<Row>, res: Resolved, ks: seq<Field>)
    ensures |CoerceFields(columns, rows, res, ks)| == |rows|
    ensures forall i :: 0 <= i < |rows| ==> CoerceFields(columns, rows, res, ks)[i].Keys == rows[i].Keys
    ensures forall i, c :: 0 <= i < |rows| && c in rows[i] ==>
              CoerceFields(columns, rows, res, ks)[i][c] ==
                (if c in CoercedColumns(columns, res, ks) then ToNumeric(rows[i][c]) else rows[i][c])
    decreases |ks|
  {
    if ks != [] {
      var init := ks[..|ks| - 1];
      var last := ks[|ks| - 1];
      CoerceFieldsMeaning(columns, rows, res, init);
      CoerceColumnAt(CoerceFields(columns, rows, res, init), if CoercedColumnOf(columns, res, last).Some? then CoercedColumnOf(columns, res, last).value else "");
      assert CoercedColumns(columns, res, ks) ==
             CoercedColumns(columns, res, init) +
             (if CoercedColumnOf(columns, res, last).Some? then {CoercedColumnOf(columns, res, last).value} else {}) by {
        assert ks == init + [last];
      }
      forall i, c | 0 <= i < |rows| && c in rows[i]
        ensures CoerceFields(columns, rows, res, ks)[i][c] ==
                (if c in CoercedColumns(columns, res, ks) then ToNumeric(rows[i][c]) else rows[i][c])
      {
        ToNumericMeaning(rows[i][c]);
      }
    }
  }

  /** A numeric field resolved to a column of the table is coerced. */
  lemma ResolvedFieldIsCoerced(columns: seq<string>, res: Resolved, k: Field)
    requires k in NumericFields && Get(res, k).Some? && Get(res, k).value in columns
    ensures Get(res, k).value in CoercedColumns(columns, res, NumericFields)
  {
    assert CoercedColumnOf(columns, res, k).Some?;
  }
}
