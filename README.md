# SC-DOT traffic-count pipeline, modelled in Dafny

SC-DOT publishes one GIS attribute table of traffic counts per survey year. Each
year has its own column names. `create_big_df` (wrangling.py) turns these tables
into one long table with one row per monitoring point, route and year. It works in
five steps:

1. It normalises and aliases the column names.
2. It cleans every year:
   - it drops bad columns, duplicated columns and duplicated rows;
   - it corrects route types;
   - it collapses each identity (station, route identifier, route number) to one
     row that carries the group-mean traffic.
3. It reconciles the static attributes of every year with the 2018 table and
   converts the coordinates.
4. It stacks the years and keeps sixteen columns, then fills the gaps.
5. It sorts by identity and year, then adds the percent change of the traffic,
   the route label, the integer year and the upper-case county.

The dashboard (app.py) builds its dropdown options from that table. It cascades
each dropdown's options from the two other selections, and it filters the rows
the map and the year plot draw.

The model follows the source's structure:

- `Frame`: cells, typed column headers, positional rows, tables and the identity
  key. Column access is by label, and the first column with that label wins.
- `Ordering`: the string, cell and tuple orders used by `sort_values` and
  `sorted`.
- `ColumnNames`, `Clean`, `Reconcile`, `Unify`, `Change`, `Finish`: the stages
  of `create_big_df`, each as functions on a table, with lemmas that state what
  each stage does to every cell.
- `Years`: the year dictionary, plus `EachYear`. `EachYear` is the loop every
  per-year stage runs. It updates the dictionary in place year by year, and it
  ends with the first year's error when a year fails the stage.
- `Wrangling`: `create_big_df` as a method that chains these loops and a loop
  over the retained columns. It is proved equal to the specification function
  `Pipeline`.
- `App`: the option lists and row filters of the dashboard callbacks.

Two points of behaviour are modelled as the code has them, although one might
expect otherwise:

- **The fill at line 179.** Only the backward fill is grouped by identity. The
  `.ffill()` after it runs over the whole stacked frame, so a gap can take the
  value of the previous row of another identity, as
  `Unify.FillLeaksAcrossIdentities` proves.
- **Errors.** `create_big_df` raises whenever a year lacks a column it drops,
  groups by or casts, and the model returns these errors as `Err` values. These
  cases are:
  - the year 2009, 2012 or 2017 itself, or its `county_name`;
  - `row_number`;
  - an identity column or `average_daily_traffic`;
  - a `longitude` in a year that has a `latitude`;
  - the 2018 year or its `year` column;
  - a retained column that no year has;
  - a year cell that is not a number.

## Model

| member | source | states |
|---|---|---|
| ColumnNames.NormaliseShape | wrangling.py:63 | a normalised column name has no underscore, no upper-case letter, and no white space at either end |
| ColumnNames.NormaliseIdempotent | wrangling.py:63 | normalising a name twice gives the same name as normalising it once |
| ColumnNames.NormaliseColumns | wrangling.py:62-66 | each column is renamed to the alias of its normalised name, keeping its position and dtype; the rows are untouched |
| ColumnNames.Retag | wrangling.py:68-78 | exactly the float-typed `route_type` columns become `route_type_number`; afterwards no float `route_type` column remains |
| ColumnNames.RetagIdempotent | wrangling.py:68-78 | retagging a second time changes nothing |
| Wrangling.DropCounty | wrangling.py:82-84 | dropping `county_name` from a year raises exactly when the year or the column is absent; otherwise that year becomes the year with that column dropped (`Clean.DropNamed`), and no other year changes |
| Clean.DedupColumns | wrangling.py:88 | after the duplicated labels are dropped, the labels are distinct and the set of labels is unchanged |
| Clean.DedupColumnsGet | wrangling.py:88 | every label still reads the same cell in every row |
| Clean.DropIds | wrangling.py:93-96 | exactly `row_number` and `id2` disappear; the row count is kept |
| Clean.DropIdsGet | wrangling.py:93-96 | every other column reads the same cells as before |
| Wrangling.NeedsRowNumber | wrangling.py:94 | the row-number drop fails exactly when the year has no `row_number` |
| Clean.DropDuplicateRows | wrangling.py:97 | the kept rows are pairwise different, and a row is kept exactly when it occurs in the input |
| Clean.DropDuplicateRowsOrder | wrangling.py:97 | the kept rows are the input rows at increasing positions, each the first occurrence of its contents, so the input order is kept |
| Clean.ReplaceL | wrangling.py:103 | the result has the same length, every 'L' has become 'S', and every other character is unchanged |
| Clean.CorrectSpec | wrangling.py:101-105 | after the corrections no route type contains 'L' and no route type number is 9; all other columns and values are unchanged |
| Wrangling.NeedsIdentity | wrangling.py:109-112 | the group-by fails exactly when an identity column or the traffic column is absent |
| Clean.GroupAdt | wrangling.py:109-112 | a value is averaged for an identity exactly when some row of that identity has it as its numeric traffic |
| Clean.GroupAdtAppend | wrangling.py:109-112 | the averaged list is collected row by row: the list of a + b is the list of a followed by the list of b |
| Clean.GroupAdtOne | wrangling.py:109-112 | one row adds its own traffic exactly when it has the identity and a number there, and nothing otherwise; with `GroupAdtAppend`, each such row of the group adds exactly one entry, in row order |
| Clean.MeanBounds | wrangling.py:109-112 | the group-mean traffic lies between the smallest and largest value it averages |
| Clean.WithGroupMeansGet | wrangling.py:109-112 | each row's traffic becomes the mean of its identity group; identity and every other column are unchanged |
| Clean.HeadPerKey | wrangling.py:116 | `head(1)` per identity leaves pairwise different identities and loses none |
| Clean.HeadPerKeyOrder | wrangling.py:116 | the kept rows are the input rows at increasing positions, each the first row of its identity, so the input order is kept |
| Clean.FirstOfGroup | wrangling.py:114-116 | each row kept by `drop_duplicates` and then `head(1)` is the first row of its identity in the frame |
| Clean.CollapseSpec | wrangling.py:107-117 | after the collapse the identities are unique, and every identity of the year survives |
| Clean.CollapseRowFrom | wrangling.py:107-117 | every collapsed row is the first row of its identity in the year, with its traffic replaced by the group mean |
| Years.FirstError | wrangling.py:93-117 | the stage's error is absent exactly when every year passes its check, and otherwise is the error of some year |
| Years.FirstErrorIsFirst | wrangling.py:93-117 | the error reported is that of the first failing year in the visiting order; every year before it is absent or passes |
| Years.EachYear | wrangling.py:87-117 | the in-place loop over the years returns the first failing year's error, or else replaces each year's frame by the transformed frame |
| Years.StageKeepsYears | wrangling.py:87-117 | a successful stage keeps exactly the same years |
| Reconcile.StaticCols | wrangling.py:123-127 | the reference columns are exactly the 2018 columns other than the identity, the traffic and the year |
| Reconcile.AddMissing | wrangling.py:132-134 | afterwards the year has every reference column, plus its own columns; the row count is kept |
| Reconcile.AddMissingGet | wrangling.py:132-134 | every existing column reads the same cells as before |
| Reconcile.Lookup | wrangling.py:126-137 | the reference row is found exactly when some 2018 row has the identity, and the row found has it |
| Reconcile.ReconcileYearSpec | wrangling.py:129-138 | each cell takes the 2018 value when the identity occurs in 2018, the column is static and the 2018 value is not NaN, and keeps its own value otherwise; identity, traffic and year are never written |
| Reconcile.ReconcileYears | wrangling.py:119-138 | reconciliation fails exactly when 2018 or its year column is missing; otherwise the years are kept, 2018 itself is unchanged, and every other year is updated from 2018 as `ReconcileYear` (see `ReconcileYearSpec`) |
| Reconcile.DropMissingAdt | wrangling.py:142 | a row survives exactly when its traffic is not NaN |
| Reconcile.DropMissingAdtOrder | wrangling.py:142 | the surviving rows are exactly the rows at the positions with traffic, in increasing order |
| Reconcile.DropReferenceMissingAdt | wrangling.py:142 | only the 2018 frame loses rows |
| Reconcile.DroppedReferenceRowStillPropagates | wrangling.py:123-142 | a 2018 row without traffic disappears but has already written its static values into the other years |
| Wrangling.NeedsLongitude | wrangling.py:145-153 | the coordinate conversion fails exactly when a year has a latitude but no longitude |
| Wrangling.ConvertLatLongSpec | wrangling.py:145-153 | latitude and longitude both go through the one conversion that the latitude column selects; every other column is unchanged |
| Unify.MissingKeep | wrangling.py:177 | the reported column is absent from every year, and a column is reported exactly when some retained column is absent from every year |
| Unify.Stack | wrangling.py:156-177 | the stacked frame has exactly the sixteen retained columns in order and its rows are the years' rows stacked in dictionary order (`StackRows`), or the selection fails exactly when one of them is absent from every year |
| Unify.StackReads | wrangling.py:156-177 | every row of every year is in the stacked frame, and each retained column there reads what the year's row read, NaN where the year lacked the column |
| Unify.StackRowsAppend | wrangling.py:156 | the years' rows follow each other in dictionary order |
| Unify.StackRowsHas | wrangling.py:156-177 | every row of every year occurs in the stacked frame, cut down to the retained columns |
| Unify.StackRowsFrom | wrangling.py:156-177 | every stacked row is some year's row, cut down to the retained columns |
| Unify.Project | wrangling.py:177 | a stacked row reads each retained column as the year's row read it, and NaN where the year lacked the column |
| Unify.NextInGroup | wrangling.py:179 | the grouped backward fill gives a value exactly when a row at or after the position in the identity has one, and then it is the value of the nearest such row |
| Unify.LastPresent | wrangling.py:179 | the ungrouped forward fill gives a value exactly when some row at or above has one, and then it is the value of the nearest such row |
| Unify.FillColumnGet | wrangling.py:179 | filling a column writes only that column |
| Unify.FillValueSpec | wrangling.py:179 | the filled value is the value of the nearest row at or below in the row's own identity that has one (the row's own value when present); if there is none, it is the filled value of the row above, whatever its identity, and NaN on the first row; no value is invented |
| Unify.FillLeaksAcrossIdentities | wrangling.py:179 | a gap with no later value in its identity takes the value of the row above, even when that row has another identity |
| Wrangling.FillColumns | wrangling.py:178-179 | the loop over the retained columns fills them one after another, each on the frame left by the previous fills |
| Ordering.StrLtTransitive | wrangling.py:181 | Python's string order is transitive |
| Ordering.StrLtTotal | wrangling.py:181 | any two different strings are ordered one way or the other |
| Ordering.ValueLtTransitive | wrangling.py:181 | the cell order (numbers, then text, then NaN) is transitive |
| Ordering.ValueLtTotal | wrangling.py:181 | any two different cells are ordered one way or the other |
| Ordering.KeyLtTransitive | wrangling.py:181 | the lexicographic order on sort keys is transitive |
| Ordering.KeyLtTotal | wrangling.py:181 | any two different sort keys are ordered one way or the other |
| Ordering.KeyLtAntisymmetric | wrangling.py:181 | two sort keys that are not ordered either way are equal |
| Change.SortKey | wrangling.py:181 | the sort key has four components: the identity, then the year |
| Change.Insert | wrangling.py:181 | inserting a row adds exactly that row to the multiset of rows |
| Change.InsertSorted | wrangling.py:181 | inserting a row into sorted rows keeps them sorted |
| Change.SortSpec | wrangling.py:181 | the sorted frame has the same rows as a multiset, in ascending order of identity and year |
| Change.PrevInGroup | wrangling.py:183-186 | the previous row of an identity is the last earlier row with that identity |
| Change.Pct | wrangling.py:183-186 | the percent change is defined exactly when both values are numbers and the previous one is not 0, and then previous times (1 + change) equals current |
| Change.SortedPrevIsAbove | wrangling.py:181-186 | in the sorted frame, the previous row of an identity is the row just above whenever that row has the same identity |
| Change.LastInGroup | wrangling.py:183-186 | the pad gives a value exactly when an earlier row of the identity has one, and then it is the value of the nearest such row |
| Change.SortedPadded | wrangling.py:181-186 | in the sorted frame the padded traffic is the row's own when present, otherwise the padded traffic of the row above when it has the same identity, and otherwise NaN |
| Change.AddPctSpec | wrangling.py:183-186 | `pct_changed` is NaN on the first row of each identity and otherwise the relative change from the row above, both traffic values padded within the identity; other columns are unchanged |
| Change.PctOfPresentTraffic | wrangling.py:183-186 | where both rows carry traffic, `pct_changed` is the plain relative change of the traffic |
| Change.PctOfGapIsZero | wrangling.py:183-186 | a row without traffic, after a non-zero padded traffic in its identity, gets a change of 0 |
| Change.AddPctKeepsSorted | wrangling.py:181-186 | adding `pct_changed` keeps the frame sorted |
| Finish.RouteLabel | wrangling.py:189 | the label is text exactly when the route type is text, and then it is the type, a dash and the route number as text |
| Finish.Trunc | wrangling.py:190 | casting the year to an integer truncates toward zero |
| Finish.Upper | wrangling.py:191 | the upper-cased county has the same length; each lower-case letter becomes its upper-case letter, and every other character is unchanged |
| Finish.Without | wrangling.py:188 | removing the dashes keeps exactly the characters that are not dashes |
| Finish.WithoutAppend | wrangling.py:188 | removing a character splits over concatenation |
| Finish.WithoutOne | wrangling.py:188 | one character is dropped exactly when it is the removed character; with `WithoutAppend`, the other characters keep their order and number |
| Finish.FinalCorrections | wrangling.py:188-192 | the integer cast fails exactly when some year is not a number; otherwise the row count is kept and only `route` is added |
| Finish.FinalSpec | wrangling.py:188-192 | for each row: the route type has its dashes removed; the label is built from that type; the year is truncated; the county is upper-cased; route 385 is then retyped as I and 1; every other column is unchanged |
| Finish.Fix385Get | wrangling.py:192 | on the rows of route number 385 the route type becomes I and the route type number becomes 1; no other cell changes |
| Finish.FinalRouteTypeHasNoDash | wrangling.py:188-192 | no final route type contains a dash |
| Finish.Route385KeepsOldLabel | wrangling.py:189-192 | route 385 gets type I but keeps the label built from its old type |
| Finish.TruncKeepsOrder | wrangling.py:181-190 | truncating the year of two ordered sort keys keeps them ordered |
| Finish.FinalKeepsSorted | wrangling.py:181-192 | the final corrections keep the frame sorted by identity and year |
| Wrangling.CleanYears | wrangling.py:62-117 | the cleaning loops compute the naming-and-cleaning stage chain, and they keep exactly the same years |
| Wrangling.AlignYears | wrangling.py:119-153 | the reconciliation and coordinate loops compute the alignment stage chain |
| Wrangling.CreateBigDf | wrangling.py:31-194 | the whole pipeline over the year dictionary returns `Pipeline`'s table or its first error |
| Wrangling.PipelineResult | wrangling.py:156-194 | a returned table has exactly the retained columns plus `pct_changed` and `route`, and it is sorted by identity and year |
| App.ColumnValues | app.py:25-32 | the values listed are exactly the column's values over the given rows |
| App.SortedDistinct | app.py:25 | the distinct values are exactly the column's values |
| App.SortedDistinctSorted | app.py:25 | the distinct values are in strictly ascending order, so each appears once |
| App.OptionsSpec | app.py:25-32 | an option list is ALL followed by each value of the column exactly once, in ascending order |
| App.EffectiveAdmits | app.py:132-140 | filtering on a selection keeps a row exactly when the selection is empty, is exactly ALL, or contains the row's value |
| App.UpdateRouteNamesSpec | app.py:130-146 | a route is offered exactly when some row has it and is admitted by the selected route types and counties |
| App.UpdateRouteTypesSpec | app.py:154-170 | a route type is offered exactly when some row has it and is admitted by the selected routes and counties |
| App.UpdateCountySpec | app.py:178-194 | a county is offered exactly when some row has it and is admitted by the selected routes and route types |
| App.CascadedOptionsAreInitial | app.py:25-32 | every option a callback offers is among that dropdown's initial options |
| App.UnfilteredRouteNames | app.py:130-146 | with no selection, or only ALL, in both other dropdowns, the route options are the initial ones |
| App.YearPlotRowsSpec | app.py:293-307 | the year plot draws a row exactly when its route type, county and route are admitted, whatever its year |
| App.MapRowsSpec | app.py:207-223 | the map draws a row exactly when its route type, county and route are admitted and its year is 2018 |
| App.MapIsYearPlotIn2018 | app.py:207-223 | the map's rows are exactly the year plot's rows from 2018, in the same order |
| App.AllWithOtherFilters | app.py:293-307 | a selection of ALL together with another value is not "no filter": it keeps only rows with that value or with the literal ALL |

## Left out

- Reading the `.dbf` files (wrangling.py:33-40) is left out because it is file-system I/O. The dictionary of raw per-year tables is an input, and its iteration order is the `years` parameter.
- `convert_lat_long` and the `astype('float')` casts (wrangling.py:9-28, 148-153) are opaque per-cell functions passed in as parameters. Their floating-point arithmetic is not modelled.
- These per-cell parameters never fail, so their own errors are not modelled: `astype('float')` raises `ValueError` on text it cannot parse (wrangling.py:150-153), and `convert_lat_long` raises `KeyError` at `split[1]` or `split[2]` when no value of the column has that many `:` parts, and `ValueError` when a part is not a number (wrangling.py:21-25).
- The text that Python writes for a float route number in `astype('str')` is an opaque parameter, `showNum`.
- A dtype is a tag per column: float or text (object). It is read only by the float test at line 74 and the object test at line 147. Dtype inference, and the changes that conversions, `concat` and `update` make to the tags, are not modelled.
- Traffic and coordinates are reals, not 64-bit floats.
- `inf` from a division by a zero previous traffic value becomes NaN. NaN and inf are treated alike downstream.
- `groupby` drops rows whose key is NaN. Here a NaN key is an ordinary value.
- Cells are ordered numbers first, then text, then NaN. That is the order `sort_values` uses at wrangling.py:181. It differs from `sorted` at app.py:25, which raises `TypeError` on a column that mixes numbers and text. A NaN in a text column raises there too, because NaN is a float; the model puts it last.
- `str.lower`, `str.upper` and `str.isspace` are modelled on ASCII letters and the listed white-space code points. Other Unicode case mappings are not modelled.
- A year cell holding text that `astype('int')` could parse is reported as an error instead of being parsed.
- `reset_index` after `update` moves the identity columns to the front. The model keeps the original column order; every read is by label, so no value changes.
- Which missing label pandas names in a `KeyError` is not modelled. The model reports the first missing one in list order.
- DropDuplicateRows: its own contract gives membership and distinctness. That the kept rows keep their input order is stated by `Clean.DropDuplicateRowsOrder`, so that the proofs that use the function stay small.
- HeadPerKey: its own contract gives unique and complete identities. That the kept rows are input rows in input order is stated by `Clean.HeadPerKeyOrder`, for the same reason.
- DropMissingAdt: its own contract gives membership. That the surviving rows keep their order is stated by `Reconcile.DropMissingAdtOrder`.
- FirstError: its own contract says the error is that of some failing year. That it is the first failing year in the visiting order is stated by `Years.FirstErrorIsFirst`.
- `Change.SortSpec` states that the rows end up sorted and are a permutation of the input. It does not state that rows with equal keys keep their order, although the insertion sort keeps it.
- `ColumnNames.Rename` has no contract of its own. That renaming an already canonical name changes nothing over the 43-entry alias table is not proved.
- The unused `exclude_cols` list and the first `cols` list (wrangling.py:119-120) are left out, because line 127 overwrites `cols` before it is used.
- The callbacks' independence from their own dropdown's selection holds by their signatures, so it is not a separate lemma.
- The Dash layout, the Plotly figures, the scale-dependent colour and size, `MAPBOX_KEY`, and reading the pickled frame (app.py) are presentation and I/O. They are left out, and so are dashboard.py and upstate.py.
