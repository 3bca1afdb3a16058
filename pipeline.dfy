/** create_big_df (wrangling.py:31-194) end to end: the per-year stages run as
    loops over the year dictionary, then the stacked frame is filled, sorted,
    given its percent change and corrected. */
module Wrangling {
  import opened Frame
  import opened Years
  import opened ColumnNames
  import opened Clean
  import opened Reconcile
  import opened Unify
  import opened Change
  import opened Finish

  /** Lines 82-84: dropping county_name from one year raises when the year or the
      column is missing. */
  function DropCounty(dfs: Frames, y: string): (r: Result<Frames>)
    ensures r.Err? <==> y !in dfs || !Has(dfs[y], CountyName)
    ensures r.Ok? ==> r.value.Keys == dfs.Keys && !Has(r.value[y], CountyName)
    ensures r.Ok? ==> r.value[y] == DropNamed(dfs[y], CountyName)
    ensures r.Ok? ==> forall z | z in dfs && z != y :: r.value[z] == dfs[z]
  {
    if y !in dfs then Err(MissingYear(y))
    else if !Has(dfs[y], CountyName) then Err(MissingColumn(y, CountyName))
    else Ok(dfs[y := DropNamed(dfs[y], CountyName)])
  }

  // The per-year transformations, one per loop of create_big_df.

  function NameYear(y: string, t: Table): Table { NameColumns(t) }

  function DedupYear(y: string, t: Table): Table { DedupColumns(t) }

  function DropRowIdsYear(y: string, t: Table): Table { DropDuplicateRows(DropIds(t)) }

  function CorrectYear(y: string, t: Table): Table { Correct(t) }

  function CollapseYear(y: string, t: Table): Table { Collapse(t) }

  /** Line 94 raises when a year has no row_number. */
  function NeedsRowNumber(y: string, t: Table): (e: Option<Error>)
    ensures e.None? <==> Has(t, RowNumber)
  {
    if Has(t, RowNumber) then None else Some(MissingColumn(y, RowNumber))
  }

  /** Lines 109-112 raise on the first identity column a year lacks, then on a
      missing traffic column. */
  function NeedsIdentity(y: string, t: Table): (e: Option<Error>)
    ensures e.None? <==> Has(t, StationId) && Has(t, RouteIdentifier) && Has(t, RouteNumber) && Has(t, Adt)
  {
    if !Has(t, StationId) then Some(MissingColumn(y, StationId))
    else if !Has(t, RouteIdentifier) then Some(MissingColumn(y, RouteIdentifier))
    else if !Has(t, RouteNumber) then Some(MissingColumn(y, RouteNumber))
    else if !Has(t, Adt) then Some(MissingColumn(y, Adt))
    else None
  }

  /** Lines 146-153 raise when a year has a latitude but no longitude. */
  function NeedsLongitude(y: string, t: Table): (e: Option<Error>)
    ensures e.None? <==> !Has(t, Latitude) || Has(t, Longitude)
  {
    if Has(t, Latitude) && !Has(t, Longitude) then Some(MissingColumn(y, Longitude)) else None
  }

  /** Whether line 147 takes the degrees-minutes-seconds branch: the latitude is
      a text column and some latitude holds a ':'. */
  predicate HasColonLatitude(t: Table)
    requires Has(t, Latitude)
  {
    && t.cols[IndexOf(Names(t.cols), Latitude)].dtype == Text
    && exists x | x in t.rows :: Get(t, x, Latitude).Str? && ':' in Get(t, x, Latitude).s
  }

  /** Lines 145-153 for one year: both coordinates through convert_lat_long
      (convert) or through a float cast (asFloat); both are opaque per-value
      functions here. */
  function ConvertLatLong(t: Table, convert: Value -> Value, asFloat: Value -> Value): Table
  {
    if !Has(t, Latitude) then t
    else
      var f := if HasColonLatitude(t) then convert else asFloat;
      MapColumn(MapColumn(t, Latitude, f), Longitude, f)
  }

  function LatLongYear(convert: Value -> Value, asFloat: Value -> Value): (string, Table) -> Table
  {
    (y, t) => ConvertLatLong(t, convert, asFloat)
  }

  /** The conversion line 147 picks for a year's coordinates. */
  function LatLongFn(t: Table, convert: Value -> Value, asFloat: Value -> Value): Value -> Value
    requires Has(t, Latitude)
  {
    if HasColonLatitude(t) then convert else asFloat
  }

  /** Both coordinates go through the same conversion, chosen by the latitude
      column; every other column is untouched. */
  lemma ConvertLatLongSpec(t: Table, convert: Value -> Value, asFloat: Value -> Value, i: nat, d: string)
    requires WellFormed(t) && i < |t.rows| && Has(t, Latitude) && Has(t, Longitude)
    ensures |ConvertLatLong(t, convert, asFloat).rows| == |t.rows|
    ensures Get(ConvertLatLong(t, convert, asFloat), ConvertLatLong(t, convert, asFloat).rows[i], Latitude)
         == LatLongFn(t, convert, asFloat)(Get(t, t.rows[i], Latitude))
    ensures Get(ConvertLatLong(t, convert, asFloat), ConvertLatLong(t, convert, asFloat).rows[i], Longitude)
         == LatLongFn(t, convert, asFloat)(Get(t, t.rows[i], Longitude))
    ensures d != Latitude && d != Longitude ==>
      Get(ConvertLatLong(t, convert, asFloat), ConvertLatLong(t, convert, asFloat).rows[i], d) == Get(t, t.rows[i], d)
  {
    var f := LatLongFn(t, convert, asFloat);
    var t1 := MapColumn(t, Latitude, f);
    assert ConvertLatLong(t, convert, asFloat) == MapColumn(t1, Longitude, f);
    MapColumnGet(t, Latitude, f, i, Latitude);
    MapColumnGet(t, Latitude, f, i, Longitude);
    MapColumnGet(t, Latitude, f, i, d);
    MapColumnGet(t1, Longitude, f, i, Latitude);
    MapColumnGet(t1, Longitude, f, i, Longitude);
    MapColumnGet(t1, Longitude, f, i, d);
  }

  /** Lines 62-117: every year named, cleaned, corrected and collapsed. */
  function Cleaned(years: seq<string>, raw: Frames): Result<Frames>
  {
    var named :- Stage(years, raw, NoCheck, NameYear);
    var d2009 :- DropCounty(named, "2009");
    var d2012 :- DropCounty(d2009, "2012");
    var d2017 :- DropCounty(d2012, "2017");
    var deduped :- Stage(years, d2017, NoCheck, DedupYear);
    var rowsDropped :- Stage(years, deduped, NeedsRowNumber, DropRowIdsYear);
    var corrected :- Stage(years, rowsDropped, NoCheck, CorrectYear);
    Stage(years, corrected, NeedsIdentity, CollapseYear)
  }

  /** Lines 119-153: the years reconciled with 2018, 2018's rows without traffic
      dropped, and the coordinates converted. */
  function Aligned(years: seq<string>, collapsed: Frames, convert: Value -> Value, asFloat: Value -> Value): Result<Frames>
  {
    var reconciled :- ReconcileYears(collapsed);
    var trimmed := DropReferenceMissingAdt(reconciled);
    Stage(years, trimmed, NeedsLongitude, LatLongYear(convert, asFloat))
  }

  /** What create_big_df returns, or the error it raises, for the year frames raw
      visited in the order years. */
  function Pipeline(years: seq<string>, raw: Frames, convert: Value -> Value, asFloat: Value -> Value,
                    showNum: real -> string): Result<Table>
  {
    var collapsed :- Cleaned(years, raw);
    var located :- Aligned(years, collapsed, convert, asFloat);
    var stacked :- Stack(years, located);
    FinalCorrections(AddPct(Sort(FillAll(stacked, Keep))), showNum)
  }

  /** The loops of lines 62-117 over the year dictionary. */
  method CleanYears(years: seq<string>, raw: Frames) returns (result: Result<Frames>)
    requires YearOrder(years, raw)
    ensures result == Cleaned(years, raw)
    ensures result.Ok? ==> YearOrder(years, result.value)
  {
    var dfs :- EachYear(years, raw, NoCheck, NameYear);
    StageKeepsYears(years, raw, NoCheck, NameYear);
    var d2009 :- DropCounty(dfs, "2009");
    var d2012 :- DropCounty(d2009, "2012");
    var d2017 :- DropCounty(d2012, "2017");
    var deduped :- EachYear(years, d2017, NoCheck, DedupYear);
    StageKeepsYears(years, d2017, NoCheck, DedupYear);
    var rowsDropped :- EachYear(years, deduped, NeedsRowNumber, DropRowIdsYear);
    StageKeepsYears(years, deduped, NeedsRowNumber, DropRowIdsYear);
    var corrected :- EachYear(years, rowsDropped, NoCheck, CorrectYear);
    StageKeepsYears(years, rowsDropped, NoCheck, CorrectYear);
    result := EachYear(years, corrected, NeedsIdentity, CollapseYear);
    if result.Ok? {
      StageKeepsYears(years, corrected, NeedsIdentity, CollapseYear);
    }
  }

  /** The loops of lines 119-153. */
  method AlignYears(years: seq<string>, collapsed: Frames, convert: Value -> Value, asFloat: Value -> Value)
    returns (result: Result<Frames>)
    requires YearOrder(years, collapsed)
    ensures result == Aligned(years, collapsed, convert, asFloat)
  {
    if Reference !in collapsed {
      return Err(MissingYear(Reference));
    }
    if !Has(collapsed[Reference], Year) {
      return Err(MissingColumn(Reference, Year));
    }
    var reconciled :- EachYear(years, collapsed, NoCheck, ReconcileFrom(collapsed[Reference]));
    StageKeepsYears(years, collapsed, NoCheck, ReconcileFrom(collapsed[Reference]));
    var trimmed := DropReferenceMissingAdt(reconciled);
    result := EachYear(years, trimmed, NeedsLongitude, LatLongYear(convert, asFloat));
  }

  /** The loop of lines 178-179: each column filled in turn, on the frame the
      previous columns' fills left. */
  method FillColumns(stacked: Table, cols: seq<string>) returns (t: Table)
    ensures t == FillAll(stacked, cols)
  {
    t := stacked;
    for k := 0 to |cols|
      invariant t == FillAll(stacked, cols[..k])
    {
      t := FillColumn(t, cols[k]);
      assert cols[..k + 1][..k] == cols[..k];
    }
    assert cols[..|cols|] == cols;
  }

  /** create_big_df: the year dictionary is updated stage by stage, one loop over
      the years per stage, then one loop over the retained columns fills the
      stacked frame. */
  method CreateBigDf(years: seq<string>, raw: Frames, convert: Value -> Value, asFloat: Value -> Value,
                     showNum: real -> string) returns (result: Result<Table>)
    requires YearOrder(years, raw)
    ensures result == Pipeline(years, raw, convert, asFloat, showNum)
  {
    var collapsed :- CleanYears(years, raw);
    var located :- AlignYears(years, collapsed, convert, asFloat);
    var stacked :- Stack(years, located);
    var filled := FillColumns(stacked, Keep);
    result := FinalCorrections(AddPct(Sort(filled)), showNum);
  }

  /** The returned frame holds exactly the retained columns, pct_changed and
      route, and its rows are in ascending order of identity and year. */
  lemma PipelineResult(years: seq<string>, raw: Frames, convert: Value -> Value, asFloat: Value -> Value,
                       showNum: real -> string)
    requires Pipeline(years, raw, convert, asFloat, showNum).Ok?
    ensures var r := Pipeline(years, raw, convert, asFloat, showNum).value;
            && (forall d :: Has(r, d) <==> d in Keep || d == PctChanged || d == Route)
            && SortedBy(r, r.rows)
  {
    var collapsed := Cleaned(years, raw).value;
    var located := Aligned(years, collapsed, convert, asFloat).value;
    var stacked := Stack(years, located).value;
    var sorted := Sort(FillAll(stacked, Keep));
    SortSpec(FillAll(stacked, Keep));
    AddPctKeepsSorted(sorted);
    assert Has(stacked, RouteType) && Has(stacked, RouteTypeNumber);
    FinalKeepsSorted(AddPct(sorted), showNum);
  }
}
