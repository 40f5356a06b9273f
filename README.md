# League standings ranking, modelled in Dafny

This project models `Assignment1.py`, a script that ranks a league-standings table. The script runs these steps in order:

1. It reads a table.
2. It finds, for each semantic field (team, points, goals for, goals against, goal difference, wins), the first of that field's aliases that is a column of the table.
3. It records which core fields are missing.
4. It derives a goal-difference column `__GD__` = GF − GA when there is no goal-difference column but there are GF and GA columns.
5. It coerces every resolved numeric column to numbers, replacing unusable cells with −10^9.
6. It raises when points, wins or GF is unresolved, or when both GD and GA are.
7. It merge sorts the rows with `comes_before`: descending points, GD, GF, wins, then ascending team text.
8. It inserts a 1-based `Position` column in front.

The modules follow the script's parts:

- `Wrappers`: `Option` and `Result`.
- `Cells`:
  - a cell is `Num(n)`, `Text(s)` (a value `to_numeric` cannot parse) or `Missing` (NaN);
  - the sentinel `WORST` = −10^9;
  - `to_numeric` on one cell;
  - `str()` of a cell;
  - Python's `<` on strings.
- `Schema`:
  - the alias table;
  - `find_col`;
  - the resulting mapping;
  - `missing_core`;
  - the two hard checks;
  - goal-difference derivation;
  - the coercion loop.

  The six semantic keys are the datatype `Field`, a mapping is `map<Field, Option<string>>`, and an entry of `missing_core` is a `MissingEntry` (`FieldMissing(field)` or the label `GaOrGdMissing`).
- `Ranking`:
  - the comparator and its order properties;
  - `merge` (a `while`-loop method proved equal to the function `Merged`);
  - `merge_sort_rows` (proved equal to `MergeSorted`);
  - the position numbering.
- `Pipeline`:
  - the class `Standings` holds the script's mutable state: the table (`columns`, `rows`), `resolved` and `missing_core`. It has one method per step, and each method states its new state as a step function of a `Snapshot` of the old one.
  - the method `Run` runs the script and is proved equal to the pure run `RunSpec`.
  - the lemmas about the whole run.

The comment at Assignment1.py:46 calls the sort stable, but the merge (Assignment1.py:89-94) emits `right[j]` whenever `comes_before(left[i], right[j])` is false, so on a full tie it takes the right head. The model follows the code, and `Ranking.FullyTiedPairIsReversed` proves that two fully tied rows come out reversed.

## Model

| member | source | states |
|---|---|---|
| Cells.ToNumericMeaning | Assignment1.py:50 | coercion always yields a number: a number stays, anything else becomes −10^9, and coercing twice is coercing once |
| Cells.LexLessTotal | Assignment1.py:82 | any two different team texts are ordered one way or the other by `<` |
| Cells.LexLessTransitive | Assignment1.py:82 | string `<` is transitive |
| Cells.LexLessAsymmetric | Assignment1.py:82 | string `<` never holds both ways |
| Schema.FindCol | Assignment1.py:22-26 | the result is `None` exactly when no candidate is a column; a found name is both a candidate and a column |
| Schema.FindColIsEarliest | Assignment1.py:22-26 | when candidate i is a column and no earlier one is, `find_col` returns candidate i |
| Schema.FindColFindsEarliest | Assignment1.py:22-26 | a found name sits at an index of the list before which no candidate is a column |
| Pipeline.ResolveFields | Assignment1.py:28-30 | the resolve loop builds exactly the mapping of every field to `find_col` of its aliases |
| Schema.ResolutionEntries | Assignment1.py:13-20 | every one of the six fields has an entry, holding `find_col` of that field's alias list |
| Schema.ResolutionMeaning | Assignment1.py:28-30 | a field is unresolved exactly when none of its aliases is a column; otherwise it names a column of the table |
| Schema.UnresolvedOf | Assignment1.py:33 | an entry is in the comprehension exactly when it names a listed field that is unresolved |
| Schema.MissingCore | Assignment1.py:33-39 | team, points, wins and gf are listed exactly when unresolved; ga and gd are never listed; "ga_or_gd" is listed exactly when both are unresolved |
| Schema.MissingCoreOrdered | Assignment1.py:33-39 | `missing_core` holds each entry at most once, in the order team, points, wins, gf, "ga_or_gd" |
| Schema.Validate | Assignment1.py:53-56 | the checks pass exactly when points, wins and gf are resolved and gd or ga is; the second error is raised only when gd and ga are both unresolved |
| Schema.GoalDifferenceDerived | Assignment1.py:43 | every row gains `__GD__` = GF − GA (a difference of numbers when both are numbers) and keeps every other cell; the table stays well formed |
| Schema.ResolveDerived | Assignment1.py:42-44 | after derivation the mapping is complete and needs no further derivation; gd becomes `__GD__` exactly when derivation applies; every other entry is unchanged |
| Schema.DerivationKeepsTable | Assignment1.py:42-44 | after derivation every row still has exactly the table's columns, and every resolved name is a column |
| Schema.CoerceColumnAt | Assignment1.py:50 | coercing one column rewrites that column of each row and nothing else |
| Schema.CoerceFieldsMeaning | Assignment1.py:46-50 | the coercion loop keeps each row's columns; it coerces exactly the cells of columns resolved for a numeric field and present in the table, and leaves every other cell as it was |
| Schema.ResolvedFieldIsCoerced | Assignment1.py:47-50 | a numeric field resolved to a column of the table is among the coerced columns |
| Pipeline.PreparedCells | Assignment1.py:46-50 | in every prepared row, the column of a resolved numeric field holds the coerced input cell |
| Pipeline.DerivedGoalDifferenceIsCoerced | Assignment1.py:42-50 | when goal difference is derived, the comparator's GD column holds GF − GA coerced, since derivation precedes coercion |
| Pipeline.UncoercedColumnKept | Assignment1.py:46-50 | a column the coercion loop does not rewrite keeps every input cell |
| Pipeline.TeamNotCoerced | Assignment1.py:13-20 | the column resolved for the team is no numeric field's column and not `__GD__` |
| Pipeline.TeamColumnUntouched | Assignment1.py:46-50 | every prepared row keeps the team cell exactly as read |
| Pipeline.AliasIsNotDerived | Assignment1.py:13-20 | no resolved alias is ever the derived name `__GD__` |
| Pipeline.TeamAliasesAreNotNumeric | Assignment1.py:13-20 | no team alias is an alias of any other field |
| Ranking.ComesBeforeIsLexicographic | Assignment1.py:59-83 | `comes_before` is the descending lexicographic order on (points, GD, GF, wins), then ascending team text when a team column exists, else false |
| Ranking.ComesBeforeIrreflexive | Assignment1.py:59-83 | no row comes before itself |
| Ranking.ComesBeforeAsymmetric | Assignment1.py:59-83 | no two rows come before each other |
| Ranking.ComesBeforeTransitive | Assignment1.py:59-83 | `comes_before` is transitive |
| Ranking.NotBeforeTransitive | Assignment1.py:59-83 | "not before" is transitive, so `comes_before` is a strict weak order |
| Ranking.TiedExactly | Assignment1.py:79-83 | `comes_before` is false both ways exactly when all four keys are equal and the team texts are equal or there is no team column |
| Ranking.SentinelPointsLose | Assignment1.py:63-65 | a row with sentinel points comes after any row with greater points, whatever its other keys |
| Ranking.SentinelRowsSortLast | Assignment1.py:63-65 | in a sorted list, a row with sentinel points follows every row with greater points |
| Ranking.MergedPermutation | Assignment1.py:85-101 | the merge has length `len(left) + len(right)` and is a permutation of `left + right` |
| Ranking.MergedSorted | Assignment1.py:85-101 | merging two sorted lists gives a sorted list |
| Ranking.MergedTakesRightOnTie | Assignment1.py:89-94 | the first row emitted is the left head when it comes before the right head, and the right head otherwise |
| Ranking.Merge | Assignment1.py:85-101 | the three-loop method computes exactly the merge function |
| Ranking.MergeSortedPermutation | Assignment1.py:103-109 | the sort keeps every row exactly once, and returns a list of at most one row unchanged |
| Ranking.MergeSortedSorted | Assignment1.py:103-109 | in the sort's output no later row comes before an earlier one |
| Ranking.FullyTiedPairIsReversed | Assignment1.py:89-94 | two fully tied rows come out in reverse input order: the sort is not stable |
| Ranking.MergeSortRows | Assignment1.py:103-109 | the recursive method computes exactly the merge-sort function |
| Ranking.NumberedPositions | Assignment1.py:117 | positions are exactly 1..n in output order, strictly increasing, and every other cell is kept |
| Ranking.ExampleStandingsOrder | Assignment1.py:59-109 | three example teams rank as C (most points), then A and B, who tie on every key and are ordered by name |
| Pipeline.Prepared | Assignment1.py:28-50 | the state before the checks has a complete mapping that needs no further derivation |
| Pipeline.Standings.Load | Assignment1.py:10 | the loaded state is the table, with nothing resolved or missing yet |
| Pipeline.Standings.ResolveColumns | Assignment1.py:28-30 | only `resolved` changes: it becomes the mapping of the table's columns |
| Pipeline.Standings.ComputeMissingCore | Assignment1.py:33-39 | only `missing_core` changes: it becomes the list computed from the mapping |
| Pipeline.Standings.DeriveGoalDifference | Assignment1.py:42-44 | the columns, rows and mapping become the derived ones, and the mapping then needs no derivation |
| Pipeline.Standings.CoerceNumericFields | Assignment1.py:46-50 | only the rows change: they become the rows after the coercion loop |
| Pipeline.Standings.Rank | Assignment1.py:52-117 | the checks, the sort and the numbering give exactly the ranked result of the current state |
| Pipeline.Run | Assignment1.py:10-117 | the script's run equals the pure run `RunSpec` |
| Pipeline.RunSpecIsRunWith | Assignment1.py:28-117 | the run is the generic run after the resolve loop, on the mapping that loop builds |
| Pipeline.RunWithRaises | Assignment1.py:53-56 | for any mapping, the first error (with `missing_core`) is raised exactly when points, wins or gf is unresolved, and the second exactly when those are resolved but gd and ga are not |
| Pipeline.RunRaisesExactly | Assignment1.py:33-56 | the run raises exactly when no alias of points, wins or GF is a column, or none of GD and none of GA is |
| Pipeline.UnresolvedTeamNeverRaises | Assignment1.py:33-56 | a missing team column is listed in `missing_core` but never makes the run raise |
| Pipeline.DerivationNeededExactly | Assignment1.py:42 | GD is derived exactly when no GD alias is a column but GF and GA aliases are |
| Pipeline.UnnumberedNumbered | Assignment1.py:117 | removing the Position cells from the numbered rows gives back the sorted rows |
| Pipeline.NumberedSortIsRanking | Assignment1.py:103-117 | sorting and numbering rows gives one row per input, numbered 1..n, that without Position are a sorted permutation of the input |
| Pipeline.PreparedLacksPosition | Assignment1.py:112-117 | when the table has no Position column, no prepared row has a Position cell |
| Pipeline.RunOutputIsRanking | Assignment1.py:103-117 | a successful run writes "Position" before the table's columns and one row per input row, numbered 1..n; without Position the rows are a permutation of the prepared rows with no later row coming before an earlier one |

## Left out

- Reading and writing the CSV files and the hard-coded paths (Assignment1.py:6-10, 120) are I/O. `Run` takes the table's columns and rows as parameters and returns the ranked table.
- The summary dictionary and its printing (Assignment1.py:123-129) are presentation. The text of the two error messages is also left out; the model returns `RequiredColumnsMissing(missing_core)` or `NoGoalDifferenceSource`.
- Conversion between DataFrame and a list of dicts (Assignment1.py:112, 114) is library plumbing. Rows are maps from column names to cells throughout, and the column order is kept as the `columns` sequence.
- Number parsing inside `pd.to_numeric`, floats and NaN are left out. Cells hold integers; `Text` stands for a value that does not parse and `Missing` for NaN.
- Subtracting non-numeric cells in pandas (Assignment1.py:43) yields NaN or an exception. The model gives an empty cell, which coercion then turns into −10^9.
- Python's `str()` of floats (Assignment1.py:82) is left out. `str()` of a cell is modelled for integers, texts and NaN only.
- Cells.CellText and Schema.Difference: a cell is typed on its own, so a numeric-looking text in a text column (a team named "007", say) is modelled as `Num(7)`. `CellText` then gives "7" where `str()` of the pandas string gives "007", and the team-name tie-break at Assignment1.py:82 can order such rows differently. Likewise pandas raises a TypeError for the whole column when the subtraction at Assignment1.py:43 meets a text column, while `Difference` computes each row on its own and gives an empty cell for that row only. Column dtypes are not modelled.
- Inserting "Position" into a table that already has that column raises in pandas (Assignment1.py:117). The model reports this as the error `PositionColumnExists`.
- Schema.DeriveRow: reads an absent operand cell as empty. A DataFrame has every column in every row, so this differs from the script only on tables that are not well formed.
- Ranking.ComesBefore: reads a key cell that is not a number as −10^9 and an absent team cell as "". After coercion every key cell is a number and every row has every column, so on the script's tables this is the script's comparison.
- Ranking.Merge: its contract is equality with the function `Merged`. The length, permutation and sortedness promises are proved about `Merged` in `MergedPermutation` and `MergedSorted`.
- Ranking.MergeSortRows: its contract is equality with `MergeSorted`. The permutation, the unchanged short lists and sortedness are proved in `MergeSortedPermutation` and `MergeSortedSorted`. Termination (0 < mid < len for len ≥ 2) is the method's `decreases |rows|`.
- The update of `df` in place is modelled as reassigning the `Standings` fields. Pandas' copy and view semantics are left out.
