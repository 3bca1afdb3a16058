/** Stacking the years into one frame restricted to the retained columns
    (wrangling.py:156-177) and the gap fill of lines 178-179: within each identity
    a backward fill, then a forward fill over the whole stacked frame. */
module Unify {
  import opened Frame
  import opened Years

  /** cols_to_keep (lines 158-175), in its order. */
  const Keep: seq<string> := [
    Adt, "county_id", CountyName, "gmrotation", Latitude, Longitude,
    RouteIdentifier, RouteNumber, "route_leg_beginmile", "route_leg_endmile",
    "route_mile_point", "route_leg_descrip", RouteType, RouteTypeNumber, StationId, Year
  ]

  /** Whether some year's frame carries column c. */
  predicate AnyHas(years: seq<string>, dfs: Frames, c: string)
  {
    exists y | y in years :: y in dfs && Has(dfs[y], c)
  }

  /** The first retained column that no year carries: selecting it raises. */
  function MissingKeep(years: seq<string>, dfs: Frames, cols: seq<string>): (r: Option<string>)
    ensures r.None? <==> forall c | c in cols :: AnyHas(years, dfs, c)
    ensures r.Some? ==> r.value in cols && !AnyHas(years, dfs, r.value)
  {
    if cols == [] then None
    else if !AnyHas(years, dfs, cols[0]) then Some(cols[0])
    else
      var r := MissingKeep(years, dfs, cols[1..]);
      assert forall c | c in cols :: c == cols[0] || c in cols[1..];
      r
  }

  /** The dtype of c in the first year that carries it. */
  function FirstDType(years: seq<string>, dfs: Frames, c: string): DType
  {
    if years == [] then Float
    else if years[0] in dfs && Has(dfs[years[0]], c) then
      dfs[years[0]].cols[IndexOf(Names(dfs[years[0]].cols), c)].dtype
    else FirstDType(years[1..], dfs, c)
  }

  /** One year's row cut down to the retained columns; a column the year lacks is NaN. */
  function Project(t: Table, r: Row): (p: Row)
    ensures |p| == |Keep|
    ensures forall k | 0 <= k < |Keep| :: p[k] == Get(t, r, Keep[k])
  {
    seq(|Keep|, k requires 0 <= k < |Keep| => Get(t, r, Keep[k]))
  }

  /** pd.concat of the frames in dictionary order, each row projected. */
  function StackRows(years: seq<string>, dfs: Frames): seq<Row>
  {
    if years == [] then []
    else
      (if years[0] in dfs then seq(|dfs[years[0]].rows|, i requires 0 <= i < |dfs[years[0]].rows| =>
                                 Project(dfs[years[0]], dfs[years[0]].rows[i]))
       else [])
      + StackRows(years[1..], dfs)
  }

  /** Lines 156-177: the stacked frame holds exactly the retained columns, or the
      selection raises on the first retained column that no year carries. */
  function Stack(years: seq<string>, dfs: Frames): (r: Result<Table>)
    ensures r.Err? <==> exists c | c in Keep :: !AnyHas(years, dfs, c)
    ensures r.Err? ==> r.error.MissingKeepColumn? && r.error.column in Keep && !AnyHas(years, dfs, r.error.column)
    ensures r.Ok? ==> Names(r.value.cols) == Keep && WellFormed(r.value)
    ensures r.Ok? ==> r.value.rows == StackRows(years, dfs)
  {
    match MissingKeep(years, dfs, Keep)
    case Some(c) => Err(MissingKeepColumn(c))
    case None =>
      var cols := seq(|Keep|, k requires 0 <= k < |Keep| => Column(Keep[k], FirstDType(years, dfs, Keep[k])));
      assert Names(cols) == Keep;
      StackRowsWidth(years, dfs);
      Ok(Table(cols, StackRows(years, dfs)))
  }

  lemma {:induction false} StackRowsWidth(years: seq<string>, dfs: Frames)
    ensures forall r | r in StackRows(years, dfs) :: |r| == |Keep|
  {
    if years != [] {
      StackRowsWidth(years[1..], dfs);
    }
  }

  /** The frames follow each other in dictionary order. */
  lemma {:induction false} StackRowsAppend(a: seq<string>, b: seq<string>, dfs: Frames)
    ensures StackRows(a + b, dfs) == StackRows(a, dfs) + StackRows(b, dfs)
  {
    if a == [] {
      assert a + b == b;
    } else {
      assert (a + b)[0] == a[0] && (a + b)[1..] == a[1..] + b;
      StackRowsAppend(a[1..], b, dfs);
    }
  }

  /** Every row of every year appears, projected, in the stacked frame. */
  lemma {:induction false} StackRowsHas(years: seq<string>, dfs: Frames, y: string, i: nat)
    requires y in years && y in dfs && i < |dfs[y].rows|
    ensures Project(dfs[y], dfs[y].rows[i]) in StackRows(years, dfs)
  {
    if years[0] == y {
      var head := seq(|dfs[y].rows|, j requires 0 <= j < |dfs[y].rows| => Project(dfs[y], dfs[y].rows[j]));
      assert head[i] == Project(dfs[y], dfs[y].rows[i]);
    } else {
      StackRowsHas(years[1..], dfs, y, i);
    }
  }

  /** Every row of every year is in the stacked frame, where each retained column
      reads what the year's own row read (NaN where the year lacked it). */
  lemma StackReads(years: seq<string>, dfs: Frames, y: string, i: nat, c: string)
    requires Stack(years, dfs).Ok? && y in years && y in dfs && i < |dfs[y].rows| && c in Keep
    ensures Project(dfs[y], dfs[y].rows[i]) in Stack(years, dfs).value.rows
    ensures Get(Stack(years, dfs).value, Project(dfs[y], dfs[y].rows[i]), c) == Get(dfs[y], dfs[y].rows[i], c)
  {
    StackRowsHas(years, dfs, y, i);
    ProjectGet(Stack(years, dfs).value, dfs[y], dfs[y].rows[i], c);
  }

  /** ... and nothing else does. */
  lemma {:induction false} StackRowsFrom(years: seq<string>, dfs: Frames, x: Row) returns (y: string, i: nat)
    requires x in StackRows(years, dfs)
    ensures y in years && y in dfs && i < |dfs[y].rows| && x == Project(dfs[y], dfs[y].rows[i])
  {
    var head := if years[0] in dfs then seq(|dfs[years[0]].rows|, j requires 0 <= j < |dfs[years[0]].rows| =>
                                            Project(dfs[years[0]], dfs[years[0]].rows[j]))
                else [];
    if x in head {
      y := years[0];
      i :| 0 <= i < |head| && head[i] == x;
    } else {
      y, i := StackRowsFrom(years[1..], dfs, x);
    }
  }

  /** Reading a retained column of the stacked frame reads the year's own column. */
  lemma ProjectGet(s: Table, t: Table, r: Row, c: string)
    requires Names(s.cols) == Keep && c in Keep
    ensures Get(s, Project(t, r), c) == Get(t, r, c)
  {
    var k := IndexOf(Keep, c);
    assert Keep[k] == c;
  }

  /** groupby(key)[c].bfill() at row i: the value of the nearest row at or after
      position j that carries identity k and has a value. */
  function NextInGroup(keys: seq<seq<Value>>, vals: seq<Value>, k: seq<Value>, j: nat): (v: Value)
    requires |keys| == |vals| && j <= |vals|
    ensures v != Missing <==> exists m | j <= m < |vals| :: keys[m] == k && vals[m] != Missing
    ensures v != Missing ==> exists m | j <= m < |vals| :: keys[m] == k && vals[m] == v
                                 && forall m' | j <= m' < m :: !(keys[m'] == k && vals[m'] != Missing)
    ensures j < |vals| && keys[j] == k && vals[j] != Missing ==> v == vals[j]
    decreases |vals| - j
  {
    if j == |vals| then Missing
    else if keys[j] == k && vals[j] != Missing then vals[j]
    else NextInGroup(keys, vals, k, j + 1)
  }

  /** .ffill() at row i, with no grouping: the value of the nearest row at or
      before i that has one. */
  function LastPresent(vals: seq<Value>, i: nat): (v: Value)
    requires i < |vals|
    ensures v != Missing <==> exists m | 0 <= m <= i :: vals[m] != Missing
    ensures v != Missing ==> exists m | 0 <= m <= i :: vals[m] == v && forall m' | m < m' <= i :: vals[m'] == Missing
    ensures vals[i] != Missing ==> v == vals[i]
  {
    if vals[i] != Missing then vals[i]
    else if i == 0 then Missing
    else LastPresent(vals, i - 1)
  }

  function ColumnOf(t: Table, c: string): (vals: seq<Value>)
    ensures |vals| == |t.rows|
  {
    seq(|t.rows|, i requires 0 <= i < |t.rows| => Get(t, t.rows[i], c))
  }

  function BFill(t: Table, c: string): (b: seq<Value>)
    ensures |b| == |t.rows|
  {
    var keys := Keys(t, t.rows);
    seq(|t.rows|, i requires 0 <= i < |t.rows| => NextInGroup(keys, ColumnOf(t, c), keys[i], i))
  }

  function FillValue(t: Table, c: string, i: nat): Value
    requires i < |t.rows|
  {
    LastPresent(BFill(t, c), i)
  }

  /** Line 179 for one column, grouped by the identity as it stands now. */
  function FillColumn(t: Table, c: string): (r: Table)
    ensures r.cols == t.cols && |r.rows| == |t.rows|
    ensures WellFormed(t) ==> WellFormed(r)
  {
    SetColumn(t, c, seq(|t.rows|, i requires 0 <= i < |t.rows| => FillValue(t, c, i)))
  }

  /** Filling c writes FillValue into column c and nothing else. */
  lemma FillColumnGet(t: Table, c: string, i: nat, d: string)
    requires WellFormed(t) && Has(t, c) && i < |t.rows|
    ensures Get(FillColumn(t, c), FillColumn(t, c).rows[i], d)
         == if d == c then FillValue(t, c, i) else Get(t, t.rows[i], d)
  {
    var vals := seq(|t.rows|, j requires 0 <= j < |t.rows| => FillValue(t, c, j));
    SetColumnGet(t, c, vals, i, d);
  }

  /** Row m can fill row i's gap in column c from within i's identity: it carries
      the same identity and has a value. */
  predicate Supplies(t: Table, c: string, i: nat, m: nat)
  {
    i < |t.rows| && m < |t.rows| && Key(t, t.rows[m]) == Key(t, t.rows[i]) && Get(t, t.rows[m], c) != Missing
  }

  /** The filled value, row by row: the value of the nearest row at or below i in
      i's own identity that has one (which is row i itself when it has a value);
      if there is none, the filled value of the row above, whatever identity that
      row has, and NaN on the first row. Nothing is invented. */
  lemma FillValueSpec(t: Table, c: string, i: nat)
    requires i < |t.rows|
    ensures Get(t, t.rows[i], c) != Missing ==> FillValue(t, c, i) == Get(t, t.rows[i], c)
    ensures forall m | i <= m < |t.rows| && Supplies(t, c, i, m) && (forall m' | i <= m' < m :: !Supplies(t, c, i, m'))
              :: FillValue(t, c, i) == Get(t, t.rows[m], c)
    ensures (forall m | i <= m < |t.rows| :: !Supplies(t, c, i, m))
              ==> FillValue(t, c, i) == if i == 0 then Missing else FillValue(t, c, i - 1)
    ensures FillValue(t, c, i) != Missing ==> exists m | 0 <= m < |t.rows| :: FillValue(t, c, i) == Get(t, t.rows[m], c)
  {
    forall m | i <= m < |t.rows| && Supplies(t, c, i, m) && (forall m' | i <= m' < m :: !Supplies(t, c, i, m'))
      ensures FillValue(t, c, i) == Get(t, t.rows[m], c)
    {
      FillFromGroup(t, c, i, m);
    }
    if forall m | i <= m < |t.rows| :: !Supplies(t, c, i, m) {
      FillFromAbove(t, c, i);
    }
    if Get(t, t.rows[i], c) != Missing {
      assert Supplies(t, c, i, i);
      FillFromGroup(t, c, i, i);
    }
    FillFromSomeRow(t, c, i);
  }

  /** The backward fill reads the nearest later row of the identity with a value. */
  lemma {:induction false} NextInGroupNearest(keys: seq<seq<Value>>, vals: seq<Value>, k: seq<Value>, j: nat, m: nat)
    requires |keys| == |vals| && j <= m < |vals| && keys[m] == k && vals[m] != Missing
    requires forall m' | j <= m' < m :: !(keys[m'] == k && vals[m'] != Missing)
    ensures NextInGroup(keys, vals, k, j) == vals[m]
    decreases m - j
  {
    if j < m {
      NextInGroupNearest(keys, vals, k, j + 1, m);
    }
  }

  /** The nearest supplying row of the identity fills the gap. */
  lemma FillFromGroup(t: Table, c: string, i: nat, m: nat)
    requires i <= m < |t.rows| && Supplies(t, c, i, m) && forall m' | i <= m' < m :: !Supplies(t, c, i, m')
    ensures FillValue(t, c, i) == Get(t, t.rows[m], c)
  {
    var keys := Keys(t, t.rows);
    var col := ColumnOf(t, c);
    var b := BFill(t, c);
    assert b[i] == NextInGroup(keys, col, keys[i], i);
    forall m' | i <= m' < m ensures !(keys[m'] == keys[i] && col[m'] != Missing) {
      assert !Supplies(t, c, i, m');
    }
    NextInGroupNearest(keys, col, keys[i], i, m);
  }

  /** With no supplying row in the identity, the row takes the fill of the row above. */
  lemma FillFromAbove(t: Table, c: string, i: nat)
    requires i < |t.rows| && forall m | i <= m < |t.rows| :: !Supplies(t, c, i, m)
    ensures FillValue(t, c, i) == if i == 0 then Missing else FillValue(t, c, i - 1)
  {
    var keys := Keys(t, t.rows);
    var col := ColumnOf(t, c);
    var b := BFill(t, c);
    assert b[i] == NextInGroup(keys, col, keys[i], i);
    forall m | i <= m < |col| ensures !(keys[m] == keys[i] && col[m] != Missing) {
      assert !Supplies(t, c, i, m);
    }
    assert b[i] == Missing;
  }

  /** A filled value is some row's value of the column. */
  lemma FillFromSomeRow(t: Table, c: string, i: nat)
    requires i < |t.rows|
    ensures FillValue(t, c, i) != Missing ==> exists m | 0 <= m < |t.rows| :: FillValue(t, c, i) == Get(t, t.rows[m], c)
  {
    var keys := Keys(t, t.rows);
    var col := ColumnOf(t, c);
    var b := BFill(t, c);
    var v := FillValue(t, c, i);
    if v != Missing {
      var m :| 0 <= m <= i && b[m] == v;
      assert b[m] == NextInGroup(keys, col, keys[m], m);
      var m2 :| m <= m2 < |col| && keys[m2] == keys[m] && col[m2] == v;
      assert col[m2] == Get(t, t.rows[m2], c);
    }
  }

  /** The forward fill is not grouped: a gap at the end of one identity's rows
      takes the value of the row above it even when that row is another identity. */
  lemma FillLeaksAcrossIdentities(t: Table, c: string, i: nat)
    requires WellFormed(t) && Has(t, c) && 0 < i < |t.rows|
    requires Key(t, t.rows[i - 1]) != Key(t, t.rows[i])
    requires Get(t, t.rows[i - 1], c) != Missing
    requires forall m | i <= m < |t.rows| :: !Supplies(t, c, i, m)
    ensures Get(FillColumn(t, c), FillColumn(t, c).rows[i], c) == Get(t, t.rows[i - 1], c)
  {
    assert Get(FillColumn(t, c), FillColumn(t, c).rows[i], c) == FillValue(t, c, i) by {
      FillColumnGet(t, c, i, c);
    }
    FillFromRowAbove(t, c, i);
  }

  /** With no supplying row in its identity, a row takes the value of the row
      above when that row has one. */
  lemma FillFromRowAbove(t: Table, c: string, i: nat)
    requires 0 < i < |t.rows| && Get(t, t.rows[i - 1], c) != Missing
    requires forall m | i <= m < |t.rows| :: !Supplies(t, c, i, m)
    ensures FillValue(t, c, i) == Get(t, t.rows[i - 1], c)
  {
    FillKeepsValue(t, c, i - 1);
    FillFromAbove(t, c, i);
  }

  /** A row that has a value keeps it. */
  lemma FillKeepsValue(t: Table, c: string, i: nat)
    requires i < |t.rows| && Get(t, t.rows[i], c) != Missing
    ensures FillValue(t, c, i) == Get(t, t.rows[i], c)
  {
    assert Supplies(t, c, i, i);
    FillFromGroup(t, c, i, i);
  }

  /** Lines 178-179: the columns filled one after the other, each grouped by the
      identity left by the previous ones. */
  function FillAll(t: Table, cols: seq<string>): (r: Table)
    ensures r.cols == t.cols && |r.rows| == |t.rows|
    ensures WellFormed(t) ==> WellFormed(r)
  {
    if cols == [] then t else FillColumn(FillAll(t, cols[..|cols| - 1]), cols[|cols| - 1])
  }
}
