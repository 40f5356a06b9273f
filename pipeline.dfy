/**
 * The ranking run as the script performs it: resolve the columns, record
 * what is missing, derive goal difference, coerce the numeric columns,
 * validate, merge sort, and number the positions.
 */
module Pipeline {
  import opened Wrappers
  import opened Cells
  import opened Schema
  import opened Ranking

  /** Why a run stops without producing a ranked table. */
  datatype RunError =
    | SchemaFailure(reason: SchemaError)
    | PositionColumnExists

  /** The ranked table handed to the writer: "Position" first, then the table's columns. */
  datatype RankedTable = RankedTable(columns: seq<string>, rows: seq<Row>)

  /** The script's state at one point of the run. */
  datatype Snapshot = Snapshot(columns: seq<string>, rows: seq<Row>, resolved: Resolved, missingCore: seq<MissingEntry>)

  /** After reading the table (Assignment1.py:10, 28): nothing resolved, nothing missing yet. */
  function Loaded(columns: seq<string>, rows: seq<Row>): Snapshot
  {
    Snapshot(columns, rows, map[], [])
  }

  /** After the resolve loop (Assignment1.py:28-30): every semantic field resolved against the catalogue. */
  function ResolveStep(s: Snapshot): Snapshot
  {
    s.(resolved := Resolution(s.columns))
  }

  /** After collecting the unresolved core fields (Assignment1.py:33-39). */
  function MissingStep(s: Snapshot): Snapshot
    requires IsResolution(s.resolved)
  {
    s.(missingCore := MissingCore(s.resolved))
  }

  /** After the derivation step (Assignment1.py:42-44): goal difference derived when it has to be. */
  function DeriveStep(s: Snapshot): Snapshot
    requires IsResolution(s.resolved)
  {
    Snapshot(DerivedColumns(s.columns, s.resolved), DerivedRows(s.columns, s.rows, s.resolved),
             ResolveDerived(s.resolved), s.missingCore)
  }

  /** After the coercion loop (Assignment1.py:47-50): the resolved numeric columns coerced. */
  function CoerceStep(s: Snapshot): Snapshot
  {
    s.(rows := CoerceFields(s.columns, s.rows, s.resolved, NumericFields))
  }

  /** The script's state: the table `df`, the mapping `resolved` and `missing_core`. */
  class Standings {
    var columns: seq<string>
    var rows: seq<Row>
    var resolved: Resolved
    var missingCore: seq<MissingEntry>

    ghost function State(): Snapshot
      reads this
    {
      Snapshot(columns, rows, resolved, missingCore)
    }

    /** The table as the reader delivers it. */
    constructor Load(columns: seq<string>, rows: seq<Row>)
      ensures State() == Loaded(columns, rows)
    {
      this.columns := columns;
      this.rows := rows;
      resolved := map[];
      missingCore := [];
    }

    /** The resolve loop (Assignment1.py:28-30): the resolution rebuilt from the column names. */
    method ResolveColumns()
      modifies this`resolved
      ensures State() == ResolveStep(old(State()))
    {
      resolved := ResolveFields(columns);
    }

    /** `missing_core`: the comprehension, then the two appends. */
    method ComputeMissingCore()
      requires IsResolution(resolved)
      modifies this`missingCore
      ensures State() == MissingStep(old(State()))
    {
      missingCore := UnresolvedOf(resolved, [Team, Points, Wins]);
      if resolved[GF].None? {
        missingCore := missingCore + [FieldMissing(GF)];
      }
      if resolved[GA].None? && resolved[GD].None? {
        missingCore := missingCore + [GaOrGdMissing];
      }
    }

    /** Adds a derived goal-difference column, GF minus GA per row, and points GD at it, when goal difference has to be derived (Assignment1.py:42-44). */
    method DeriveGoalDifference()
      requires IsResolution(resolved)
      modifies this`columns, this`rows, this`resolved
      ensures IsResolution(resolved) && !NeedsDerivedGD(resolved)
      ensures State() == DeriveStep(old(State()))
    {
      if resolved[GD].None? && resolved[GF].Some? && resolved[GA].Some? {
        rows := WithGoalDifference(rows, resolved[GF].value, resolved[GA].value);
        columns := WithColumn(columns, DerivedGD);
        resolved := resolved[GD := Some(DerivedGD)];
      }
    }

    /** The coercion loop over the numeric fields, rewriting each resolved column in place. */
    method CoerceNumericFields()
      modifies this`rows
      ensures State() == CoerceStep(old(State()))
    {
      ghost var before := rows;
      for i := 0 to |NumericFields|
        invariant rows == CoerceFields(columns, before, resolved, NumericFields[..i])
      {
        assert NumericFields[..i + 1][..i] == NumericFields[..i];
        var col := Get(resolved, NumericFields[i]);
        if col.Some? && col.value in columns {
          rows := CoerceColumn(rows, col.value);
        }
      }
      assert NumericFields[..|NumericFields|] == NumericFields;
    }

    /** Validate, merge sort the rows and number them; the table itself is left as it is. */
    method Rank() returns (result: Result<RankedTable, RunError>)
      requires IsResolution(resolved) && !NeedsDerivedGD(resolved)
      ensures result == Ranked(resolved, missingCore, columns, rows)
    {
      var failure := Validate(resolved, missingCore);
      if failure.Some? {
        return Err(SchemaFailure(failure.value));
      }
      ValidatedIsReady(resolved, missingCore);
      var sorted := MergeSortRows(resolved, rows);
      if PositionColumn in columns {
        return Err(PositionColumnExists);
      }
      result := Ok(RankedTable([PositionColumn] + columns, Numbered(sorted)));
    }
  }

  /** The resolve loop: one `FindCol` per semantic field, in the order of the alias table (`FieldOrder`). */
  method ResolveFields(columns: seq<string>) returns (resolved: Resolved)
    ensures resolved == Resolution(columns)
  {
    resolved := map[];
    for i := 0 to |FieldOrder|
      invariant forall k :: k in resolved <==> k in FieldOrder[..i]
      invariant forall k :: k in resolved ==> resolved[k] == FindCol(columns, Candidates(k))
    {
      var key := FieldOrder[i];
      assert FieldOrder[..i + 1] == FieldOrder[..i] + [key];
      resolved := resolved[key := FindCol(columns, Candidates(key))];
    }
    assert FieldOrder[..|FieldOrder|] == FieldOrder;
    EveryFieldListed();
    ResolutionEntries(columns);
  }

  /** The rows as they enter the sort, for a mapping `res`: derived, then coerced. */
  function PreparedRows(columns: seq<string>, rows: seq<Row>, res: Resolved): (r: seq<Row>)
    requires IsResolution(res)
    ensures |r| == |rows|
  {
    CoerceFields(DerivedColumns(columns, res), DerivedRows(columns, rows, res), ResolveDerived(res), NumericFields)
  }

  /** Once derivation has run, validation passing leaves the four sort keys resolved. */
  lemma ValidatedIsReady(res: Resolved, missing: seq<MissingEntry>)
    requires IsResolution(res) && !NeedsDerivedGD(res)
    requires Validate(res, missing).None?
    ensures ReadyToRank(res)
  {
  }

  /** The last part of the run on the prepared table: the two checks, the sort and the numbering. */
  function Ranked(res: Resolved, missing: seq<MissingEntry>, columns: seq<string>, rows: seq<Row>): Result<RankedTable, RunError>
    requires IsResolution(res) && !NeedsDerivedGD(res)
  {
    match Validate(res, missing)
    case Some(e) => Err(SchemaFailure(e))
    case None =>
      ValidatedIsReady(res, missing);
      if PositionColumn in columns then Err(PositionColumnExists)
      else Ok(RankedTable([PositionColumn] + columns, Numbered(MergeSorted(res, rows))))
  }

  /** The run after the resolve loop has produced `res`. */
  function RunWith(columns: seq<string>, rows: seq<Row>, res: Resolved): Result<RankedTable, RunError>
    requires IsResolution(res)
  {
    Ranked(ResolveDerived(res), MissingCore(res), DerivedColumns(columns, res), PreparedRows(columns, rows, res))
  }

  /** The state the script reaches just before the checks that the table can be ranked (Assignment1.py:53-56). */
  function Prepared(columns: seq<string>, rows: seq<Row>): (s: Snapshot)
    ensures IsResolution(s.resolved) && !NeedsDerivedGD(s.resolved)
  {
    var resolvedState := ResolveStep(Loaded(columns, rows));
    ResolutionInTable(columns);
    CoerceStep(DeriveStep(MissingStep(resolvedState)))
  }

  /** The whole run on a table. */
  function RunSpec(columns: seq<string>, rows: seq<Row>): Result<RankedTable, RunError>
  {
    var s := Prepared(columns, rows);
    Ranked(s.resolved, s.missingCore, s.columns, s.rows)
  }

  /** The run is the generic run after the resolve loop, on the mapping it builds. */
  lemma RunSpecIsRunWith(columns: seq<string>, rows: seq<Row>)
    ensures IsResolution(Resolution(columns))
    ensures RunSpec(columns, rows) == RunWith(columns, rows, Resolution(columns))
  {
    ResolutionInTable(columns);
  }

  /** The script: load, resolve, record what is missing, derive, coerce, then rank. */
  method Run(columns: seq<string>, rows: seq<Row>) returns (result: Result<RankedTable, RunError>)
    ensures result == RunSpec(columns, rows)
  {
    var df := new Standings.Load(columns, rows);
    df.ResolveColumns();
    ResolutionInTable(columns);
    df.ComputeMissingCore();
    df.DeriveGoalDifference();
    df.CoerceNumericFields();
    result := df.Rank();
  }

  /**
   * For any mapping, the first check fails exactly when points, wins or goals
   * for is unresolved, and the second exactly when those are resolved but
   * neither goal difference nor goals against is.
   */
  lemma RunWithRaises(columns: seq<string>, rows: seq<Row>, res: Resolved)
    requires IsResolution(res)
    ensures (RunWith(columns, rows, res) == Err(SchemaFailure(RequiredColumnsMissing(MissingCore(res)))))
              <==> (res[Points].None? || res[Wins].None? || res[GF].None?)
    ensures (RunWith(columns, rows, res) == Err(SchemaFailure(NoGoalDifferenceSource)))
              <==> (res[Points].Some? && res[Wins].Some? && res[GF].Some? && res[GD].None? && res[GA].None?)
    ensures (RunWith(columns, rows, res).Err? && RunWith(columns, rows, res).error.SchemaFailure?)
              <==> (res[Points].None? || res[Wins].None? || res[GF].None? || (res[GD].None? && res[GA].None?))
  {
  }

  /** No column backs points, wins or goals for, or none backs goal difference and none goals against. */
  predicate Unrankable(columns: seq<string>)
  {
    || NoAlias(columns, Points) || NoAlias(columns, Wins) || NoAlias(columns, GF)
    || (NoAlias(columns, GD) && NoAlias(columns, GA))
  }

  /**
   * The run raises exactly when the catalogue is unrankable: the first check
   * when points, wins or goals for has no column (reporting `missing_core`),
   * the second when neither goal difference nor goals against has one.
   */
  lemma RunRaisesExactly(columns: seq<string>, rows: seq<Row>)
    ensures (RunSpec(columns, rows).Err? && RunSpec(columns, rows).error.SchemaFailure?) <==> Unrankable(columns)
    ensures (RunSpec(columns, rows) == Err(SchemaFailure(RequiredColumnsMissing(MissingCore(Resolution(columns))))))
              <==> (NoAlias(columns, Points) || NoAlias(columns, Wins) || NoAlias(columns, GF))
    ensures (RunSpec(columns, rows) == Err(SchemaFailure(NoGoalDifferenceSource)))
              <==> (!NoAlias(columns, Points) && !NoAlias(columns, Wins) && !NoAlias(columns, GF)
                    && NoAlias(columns, GD) && NoAlias(columns, GA))
  {
    RunSpecIsRunWith(columns, rows);
    RunWithRaises(columns, rows, Resolution(columns));
    ResolutionMeaning(columns, Points);
    ResolutionMeaning(columns, Wins);
    ResolutionMeaning(columns, GF);
    ResolutionMeaning(columns, GD);
    ResolutionMeaning(columns, GA);
  }

  /** A catalogue with no team column is reported in `missing_core` but still ranks. */
  lemma UnresolvedTeamNeverRaises(columns: seq<string>, rows: seq<Row>)
    requires NoAlias(columns, Team) && !Unrankable(columns)
    ensures FieldMissing(Team) in MissingCore(Resolution(columns))
    ensures !(RunSpec(columns, rows).Err? && RunSpec(columns, rows).error.SchemaFailure?)
  {
    ResolutionMeaning(columns, Team);
    RunRaisesExactly(columns, rows);
  }

  /** Goal difference is derived exactly when no column backs it but columns back goals for and against. */
  lemma DerivationNeededExactly(columns: seq<string>)
    ensures (NeedsDerivedGD(Resolution(columns)))
              <==> (NoAlias(columns, GD) && !NoAlias(columns, GF) && !NoAlias(columns, GA))
  {
    ResolutionMeaning(columns, GD);
    ResolutionMeaning(columns, GF);
    ResolutionMeaning(columns, GA);
  }

  /** The ranked rows with the Position cell taken off again. */
  function Unnumbered(rows: seq<Row>): (r: seq<Row>)
    ensures |r| == |rows|
    decreases |rows|
  {
    if rows == [] then [] else [rows[0] - {PositionColumn}] + Unnumbered(rows[1..])
  }

  lemma {:induction false} UnnumberedAt(rows: seq<Row>)
    ensures forall i :: 0 <= i < |rows| ==> Unnumbered(rows)[i] == rows[i] - {PositionColumn}
    decreases |rows|
  {
    if rows != [] {
      UnnumberedAt(rows[1..]);
      forall i | 0 < i < |rows| ensures Unnumbered(rows)[i] == rows[i] - {PositionColumn} {
        assert rows[1..][i - 1] == rows[i];
      }
    }
  }

  /** Taking the Position cells off the numbered rows gives back the sorted rows. */
  lemma UnnumberedNumbered(rows: seq<Row>)
    requires forall i :: 0 <= i < |rows| ==> PositionColumn !in rows[i]
    ensures Unnumbered(Numbered(rows)) == rows
  {
    NumberedFromAt(rows, 1);
    UnnumberedAt(Numbered(rows));
    forall i | 0 <= i < |rows| ensures Unnumbered(Numbered(rows))[i] == rows[i] {
      assert Numbered(rows)[i] - {PositionColumn} == rows[i];
    }
  }

  /** A reordering of rows without a Position cell has none either. */
  lemma PermutationLacksPosition(s: seq<Row>, t: seq<Row>)
    requires multiset(t) == multiset(s)
    requires forall k :: 0 <= k < |s| ==> PositionColumn !in s[k]
    ensures forall i :: 0 <= i < |t| ==> PositionColumn !in t[i]
  {
    forall i | 0 <= i < |t| ensures PositionColumn !in t[i] {
      assert t[i] in multiset(s);
      var k :| 0 <= k < |s| && s[k] == t[i];
    }
  }

  /** Sorting and numbering rows without a Position cell is a ranking of them. */
  lemma NumberedSortIsRanking(res: Resolved, rows: seq<Row>)
    requires ReadyToRank(res)
    requires forall k :: 0 <= k < |rows| ==> PositionColumn !in rows[k]
    ensures var t := Numbered(MergeSorted(res, rows));
            && |t| == |rows|
            && (forall i :: 0 <= i < |t| ==> PositionColumn in t[i] && t[i][PositionColumn] == Num(i + 1))
            && multiset(Unnumbered(t)) == multiset(rows)
            && Sorted(res, Unnumbered(t))
  {
    var sorted := MergeSorted(res, rows);
    MergeSortedSorted(res, rows);
    MergeSortedPermutation(res, rows);
    NumberedPositions(sorted);
    PermutationLacksPosition(rows, sorted);
    UnnumberedNumbered(sorted);
  }

  /** The prepared rows have cells for the derived catalogue only, so none for "Position" when it is new. */
  lemma PreparedLacksPosition(columns: seq<string>, rows: seq<Row>, res: Resolved)
    requires WellFormed(columns, rows) && IsResolution(res) && ResolvedInTable(columns, res)
    requires PositionColumn !in DerivedColumns(columns, res)
    ensures forall k :: 0 <= k < |rows| ==> PositionColumn !in PreparedRows(columns, rows, res)[k]
  {
    DerivationKeepsTable(columns, rows, res);
    CoerceFieldsMeaning(DerivedColumns(columns, res), DerivedRows(columns, rows, res), ResolveDerived(res), NumericFields);
  }

  /**
   * A successful run writes "Position" before the table's columns, one row per
   * input row numbered 1..n in order, and, without the Position cell, a
   * permutation of the prepared rows in which no later row comes before an
   * earlier one.
   */
  lemma RunOutputIsRanking(columns: seq<string>, rows: seq<Row>, res: Resolved)
    requires WellFormed(columns, rows) && IsResolution(res) && ResolvedInTable(columns, res)
    requires RunWith(columns, rows, res).Ok?
    ensures ReadyToRank(ResolveDerived(res))
    ensures var t := RunWith(columns, rows, res).value;
            && t.columns == [PositionColumn] + DerivedColumns(columns, res)
            && |t.rows| == |rows|
            && (forall i :: 0 <= i < |t.rows| ==> PositionColumn in t.rows[i] && t.rows[i][PositionColumn] == Num(i + 1))
            && multiset(Unnumbered(t.rows)) == multiset(PreparedRows(columns, rows, res))
            && Sorted(ResolveDerived(res), Unnumbered(t.rows))
  {
    ValidatedIsReady(ResolveDerived(res), MissingCore(res));
    PreparedLacksPosition(columns, rows, res);
    NumberedSortIsRanking(ResolveDerived(res), PreparedRows(columns, rows, res));
  }

  /**
   * Every prepared row holds the coerced value of its input cell in each
   * resolved numeric column of the input table: a number stays, anything
   * else becomes WORST.
   */
  lemma PreparedCells(columns: seq<string>, rows: seq<Row>, res: Resolved, k: int, field: Field)
    requires WellFormed(columns, rows) && IsResolution(res) && ResolvedInTable(columns, res)
    requires 0 <= k < |rows| && field in NumericFields
    requires res[field].Some? && res[field].value != DerivedGD
    ensures ResolveDerived(res)[field] == res[field]
    ensures res[field].value in rows[k]
    ensures res[field].value in PreparedRows(columns, rows, res)[k]
    ensures PreparedRows(columns, rows, res)[k][res[field].value] == ToNumeric(rows[k][res[field].value])
  {
    var col := res[field].value;
    var derived := DerivedRows(columns, rows, res);
    DerivationKeepsTable(columns, rows, res);
    CoerceFieldsMeaning(DerivedColumns(columns, res), derived, ResolveDerived(res), NumericFields);
    ResolvedFieldIsCoerced(DerivedColumns(columns, res), ResolveDerived(res), field);
    if NeedsDerivedGD(res) {
      GoalDifferenceDerived(columns, rows, res[GF].value, res[GA].value);
    }
  }

  /** No alias of the team field is an alias of a numeric field. */
  lemma TeamAliasesAreNotNumeric(f: Field)
    requires f != Team
    ensures forall c :: c in Candidates(Team) ==> c !in Candidates(f)
  {
    match f
    case Points =>
    case GF =>
    case GA =>
    case GD =>
    case Wins =>
  }

  /**
   * A column of the table that the coercion loop does not rewrite keeps, in
   * every prepared row, the cell the table gave it.
   */
  lemma UncoercedColumnKept(columns: seq<string>, rows: seq<Row>, res: Resolved, k: int, c: string)
    requires WellFormed(columns, rows) && IsResolution(res) && ResolvedInTable(columns, res)
    requires 0 <= k < |rows| && c in columns && c != DerivedGD
    requires c !in CoercedColumns(DerivedColumns(columns, res), ResolveDerived(res), NumericFields)
    ensures c in rows[k] && c in PreparedRows(columns, rows, res)[k]
    ensures PreparedRows(columns, rows, res)[k][c] == rows[k][c]
  {
    var derived := DerivedRows(columns, rows, res);
    DerivationKeepsTable(columns, rows, res);
    if NeedsDerivedGD(res) {
      GoalDifferenceDerived(columns, rows, res[GF].value, res[GA].value);
    }
    assert c in derived[k] && derived[k][c] == rows[k][c];
    CoerceFieldsMeaning(DerivedColumns(columns, res), derived, ResolveDerived(res), NumericFields);
  }

  /** The column resolved for the team is neither coerced nor the derived one. */
  lemma TeamNotCoerced(columns: seq<string>)
    requires Resolution(columns)[Team].Some?
    ensures IsResolution(Resolution(columns))
    ensures Resolution(columns)[Team].value in columns
    ensures Resolution(columns)[Team].value != DerivedGD
    ensures Resolution(columns)[Team].value !in
              CoercedColumns(DerivedColumns(columns, Resolution(columns)), ResolveDerived(Resolution(columns)), NumericFields)
  {
    var res := Resolution(columns);
    var team := res[Team].value;
    ResolutionInTable(columns);
    ResolutionEntries(columns);
    DerivedIsNoCandidate(Team);
    forall f | f in NumericFields
      ensures CoercedColumnOf(DerivedColumns(columns, res), ResolveDerived(res), f) != Some(team)
    {
      var col := Get(ResolveDerived(res), f);
      assert col.Some? ==> col.value == DerivedGD || col.value in Candidates(f);
      TeamAliasesAreNotNumeric(f);
    }
  }

  /** The team column is never coerced: every prepared row keeps the cell the table gave it there. */
  lemma TeamColumnUntouched(columns: seq<string>, rows: seq<Row>, k: int)
    requires WellFormed(columns, rows) && 0 <= k < |rows|
    requires Resolution(columns)[Team].Some?
    ensures IsResolution(Resolution(columns))
    ensures Resolution(columns)[Team].value in rows[k]
    ensures Resolution(columns)[Team].value in PreparedRows(columns, rows, Resolution(columns))[k]
    ensures PreparedRows(columns, rows, Resolution(columns))[k][Resolution(columns)[Team].value] ==
              rows[k][Resolution(columns)[Team].value]
  {
    ResolutionInTable(columns);
    TeamNotCoerced(columns);
    UncoercedColumnKept(columns, rows, Resolution(columns), k, Resolution(columns)[Team].value);
  }

  /** The derived column's name is none of the aliases. */
  lemma DerivedIsNoCandidate(field: Field)
    ensures DerivedGD !in Candidates(field)
  {
    match field
    case Team =>
    case Points =>
    case GF =>
    case GA =>
    case GD =>
    case Wins =>
  }

  /** No alias of a field is the derived column's name. */
  lemma AliasIsNotDerived(columns: seq<string>, field: Field)
    requires Resolution(columns)[field].Some?
    ensures Resolution(columns)[field].value != DerivedGD
  {
    ResolutionEntries(columns);
    DerivedIsNoCandidate(field);
  }

  /**
   * When goal difference is derived, the comparator reads the derived column,
   * which holds GF - GA coerced: WORST when either operand is not a number.
   */
  lemma DerivedGoalDifferenceIsCoerced(columns: seq<string>, rows: seq<Row>, res: Resolved, k: int)
    requires WellFormed(columns, rows) && IsResolution(res) && ResolvedInTable(columns, res)
    requires 0 <= k < |rows| && NeedsDerivedGD(res)
    ensures ResolveDerived(res)[GD] == Some(DerivedGD)
    ensures res[GF].value in rows[k] && res[GA].value in rows[k]
    ensures DerivedGD in PreparedRows(columns, rows, res)[k]
    ensures PreparedRows(columns, rows, res)[k][DerivedGD] ==
              ToNumeric(Difference(rows[k][res[GF].value], rows[k][res[GA].value]))
  {
    var derived := DerivedRows(columns, rows, res);
    DerivationKeepsTable(columns, rows, res);
    GoalDifferenceDerived(columns, rows, res[GF].value, res[GA].value);
    CoerceFieldsMeaning(DerivedColumns(columns, res), derived, ResolveDerived(res), NumericFields);
    ResolvedFieldIsCoerced(DerivedColumns(columns, res), ResolveDerived(res), GD);
  }
}
