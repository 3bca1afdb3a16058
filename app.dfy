/** The dashboard's option lists and row filters (app.py:25-32, 125-223,
    293-307), over the frame create_big_df produced, which here is a parameter
    rather than a module-level frame. */
module App {
  import opened Frame
  import opened Ordering

  /** The entry every option list starts with, and the selection meaning "no filter". */
  const All := Str("ALL")

  /** traffic_df[c] over the given rows, in order. */
  function ColumnValues(t: Table, rows: seq<Row>, c: string): (vs: seq<Value>)
    ensures |vs| == |rows|
    ensures forall v :: v in vs <==> exists x | x in rows :: Get(t, x, c) == v
  {
    var vs := seq(|rows|, i requires 0 <= i < |rows| => Get(t, rows[i], c));
    assert forall x | x in rows :: Get(t, x, c) in vs by {
      forall x | x in rows ensures Get(t, x, c) in vs {
        var i :| 0 <= i < |rows| && rows[i] == x;
        assert vs[i] == Get(t, x, c);
      }
    }
    vs
  }

  predicate StrictlySorted(s: seq<Value>)
  {
    forall a, b | 0 <= a < b < |s| :: ValueLt(s[a], s[b])
  }

  /** Adds x to a strictly sorted list unless it is already there. */
  function InsertUnique(x: Value, s: seq<Value>): (r: seq<Value>)
    ensures forall v :: v in r <==> v in s || v == x
  {
    if s == [] then [x]
    else if x == s[0] then s
    else if ValueLt(x, s[0]) then [x] + s
    else
      var r := [s[0]] + InsertUnique(x, s[1..]);
      assert forall v | v in s :: v == s[0] || v in s[1..];
      r
  }

  lemma {:induction false} InsertUniqueSorted(x: Value, s: seq<Value>)
    requires StrictlySorted(s)
    ensures StrictlySorted(InsertUnique(x, s))
  {
    if s == [] || x == s[0] {
    } else if ValueLt(x, s[0]) {
      forall b | 0 <= b < |s| ensures ValueLt(x, s[b]) {
        if b > 0 {
          ValueLtTransitive(x, s[0], s[b]);
        }
      }
    } else {
      InsertUniqueSorted(x, s[1..]);
      ValueLtTotal(x, s[0]);
      var tail := InsertUnique(x, s[1..]);
      forall b | 0 <= b < |tail| ensures ValueLt(s[0], tail[b]) {
        assert tail[b] in tail;
        if tail[b] != x {
          var k :| 0 <= k < |s[1..]| && s[1..][k] == tail[b];
          assert s[k + 1] == tail[b];
        }
      }
    }
  }

  /** sorted(series.unique()): each value once, in ascending order. */
  function SortedDistinct(vs: seq<Value>): (r: seq<Value>)
    ensures forall v :: v in r <==> v in vs
  {
    if vs == [] then []
    else
      var n := |vs| - 1;
      var r := InsertUnique(vs[n], SortedDistinct(vs[..n]));
      assert forall v | v in vs :: v in vs[..n] || v == vs[n];
      r
  }

  lemma {:induction false} SortedDistinctSorted(vs: seq<Value>)
    ensures StrictlySorted(SortedDistinct(vs))
  {
    if vs != [] {
      var n := |vs| - 1;
      SortedDistinctSorted(vs[..n]);
      InsertUniqueSorted(vs[n], SortedDistinct(vs[..n]));
    }
  }

  /** An option list: 'ALL', then the distinct values in ascending order. */
  function Options(vs: seq<Value>): (r: seq<Value>)
    ensures |r| >= 1 && r[0] == All
  {
    [All] + SortedDistinct(vs)
  }

  /** Every option list is 'ALL' followed by each value exactly once, ascending. */
  lemma OptionsSpec(vs: seq<Value>)
    ensures Options(vs)[0] == All
    ensures StrictlySorted(Options(vs)[1..])
    ensures forall v :: v in Options(vs)[1..] <==> v in vs
  {
    SortedDistinctSorted(vs);
    assert Options(vs)[1..] == SortedDistinct(vs);
  }

  // The initial option lists (app.py:25-32).

  function RouteTypeOptions(t: Table): seq<Value> { Options(ColumnValues(t, t.rows, RouteType)) }

  function CountyOptions(t: Table): seq<Value> { Options(ColumnValues(t, t.rows, CountyName)) }

  function RouteNameOptions(t: Table): seq<Value> { Options(ColumnValues(t, t.rows, Route)) }

  /** What a callback filters by: an empty selection, or exactly ['ALL'], stands
      for every value of the column. */
  function Effective(sel: seq<Value>, t: Table, c: string): seq<Value>
  {
    if |sel| < 1 || sel == [All] then ColumnValues(t, t.rows, c) else sel
  }

  /** The meaning of a selection for one row's value. */
  predicate Admits(sel: seq<Value>, v: Value)
  {
    |sel| < 1 || sel == [All] || v in sel
  }

  /** isin(Effective(...)) on a row of the frame is Admits. */
  lemma EffectiveAdmits(sel: seq<Value>, t: Table, c: string, x: Row)
    requires x in t.rows
    ensures Get(t, x, c) in Effective(sel, t, c) <==> Admits(sel, Get(t, x, c))
  {
  }

  /** The rows of traffic_df with their values in columns c1 and c2 selected. */
  function Matching2(t: Table, c1: string, sel1: seq<Value>, c2: string, sel2: seq<Value>): seq<Row>
  {
    Filter(t.rows, x => Get(t, x, c1) in Effective(sel1, t, c1) && Get(t, x, c2) in Effective(sel2, t, c2))
  }

  /** update_route_names (app.py:130-146). */
  function UpdateRouteNames(routeType: seq<Value>, countyName: seq<Value>, t: Table): seq<Value>
  {
    Options(ColumnValues(t, Matching2(t, RouteType, routeType, CountyName, countyName), Route))
  }

  /** update_route_types (app.py:154-170). */
  function UpdateRouteTypes(routeName: seq<Value>, countyName: seq<Value>, t: Table): seq<Value>
  {
    Options(ColumnValues(t, Matching2(t, Route, routeName, CountyName, countyName), RouteType))
  }

  /** update_county (app.py:178-194). */
  function UpdateCounty(routeName: seq<Value>, routeType: seq<Value>, t: Table): seq<Value>
  {
    Options(ColumnValues(t, Matching2(t, Route, routeName, RouteType, routeType), CountyName))
  }

  /** The rows the year plot draws (app.py:293-307). */
  function YearPlotRows(routeType: seq<Value>, countyName: seq<Value>, routeName: seq<Value>, t: Table): seq<Row>
  {
    Filter(t.rows, x => && Get(t, x, RouteType) in Effective(routeType, t, RouteType)
                        && Get(t, x, CountyName) in Effective(countyName, t, CountyName)
                        && Get(t, x, Route) in Effective(routeName, t, Route))
  }

  /** The rows the map draws (app.py:207-223): the same selection, 2018 only. */
  function MapRows(routeType: seq<Value>, countyName: seq<Value>, routeName: seq<Value>, t: Table): seq<Row>
  {
    Filter(t.rows, x => && Get(t, x, RouteType) in Effective(routeType, t, RouteType)
                        && Get(t, x, CountyName) in Effective(countyName, t, CountyName)
                        && Get(t, x, Route) in Effective(routeName, t, Route)
                        && Get(t, x, Year) == Num(2018.0))
  }

  /** A cascaded option list offers a value exactly when some row of the frame has
      it and is admitted by the two other selections. */
  lemma CascadeSpec(t: Table, c1: string, sel1: seq<Value>, c2: string, sel2: seq<Value>, c: string, v: Value)
    ensures v in Options(ColumnValues(t, Matching2(t, c1, sel1, c2, sel2), c))[1..]
        <==> exists x | x in t.rows :: Get(t, x, c) == v && Admits(sel1, Get(t, x, c1)) && Admits(sel2, Get(t, x, c2))
  {
    OptionsSpec(ColumnValues(t, Matching2(t, c1, sel1, c2, sel2), c));
    forall x | x in t.rows ensures Get(t, x, c1) in Effective(sel1, t, c1) <==> Admits(sel1, Get(t, x, c1)) {
      EffectiveAdmits(sel1, t, c1, x);
    }
    forall x | x in t.rows ensures Get(t, x, c2) in Effective(sel2, t, c2) <==> Admits(sel2, Get(t, x, c2)) {
      EffectiveAdmits(sel2, t, c2, x);
    }
  }

  /** update_route_names offers the routes of the rows whose type and county are
      selected; its own selection plays no part. */
  lemma UpdateRouteNamesSpec(routeType: seq<Value>, countyName: seq<Value>, t: Table, v: Value)
    ensures v in UpdateRouteNames(routeType, countyName, t)[1..]
        <==> exists x | x in t.rows :: Get(t, x, Route) == v && Admits(routeType, Get(t, x, RouteType))
                                                             && Admits(countyName, Get(t, x, CountyName))
  {
    CascadeSpec(t, RouteType, routeType, CountyName, countyName, Route, v);
  }

  lemma UpdateRouteTypesSpec(routeName: seq<Value>, countyName: seq<Value>, t: Table, v: Value)
    ensures v in UpdateRouteTypes(routeName, countyName, t)[1..]
        <==> exists x | x in t.rows :: Get(t, x, RouteType) == v && Admits(routeName, Get(t, x, Route))
                                                                 && Admits(countyName, Get(t, x, CountyName))
  {
    CascadeSpec(t, Route, routeName, CountyName, countyName, RouteType, v);
  }

  lemma UpdateCountySpec(routeName: seq<Value>, routeType: seq<Value>, t: Table, v: Value)
    ensures v in UpdateCounty(routeName, routeType, t)[1..]
        <==> exists x | x in t.rows :: Get(t, x, CountyName) == v && Admits(routeName, Get(t, x, Route))
                                                                  && Admits(routeType, Get(t, x, RouteType))
  {
    CascadeSpec(t, Route, routeName, RouteType, routeType, CountyName, v);
  }

  /** Every cascaded option is one of the initial options of its dropdown. */
  lemma CascadedOptionsAreInitial(routeType: seq<Value>, countyName: seq<Value>, routeName: seq<Value>, t: Table)
    ensures forall v | v in UpdateRouteNames(routeType, countyName, t) :: v in RouteNameOptions(t)
    ensures forall v | v in UpdateRouteTypes(routeName, countyName, t) :: v in RouteTypeOptions(t)
    ensures forall v | v in UpdateCounty(routeName, routeType, t) :: v in CountyOptions(t)
  {
    forall v | v in UpdateRouteNames(routeType, countyName, t) ensures v in RouteNameOptions(t) {
      SubsetOption(t, Matching2(t, RouteType, routeType, CountyName, countyName), Route, v);
    }
    forall v | v in UpdateRouteTypes(routeName, countyName, t) ensures v in RouteTypeOptions(t) {
      SubsetOption(t, Matching2(t, Route, routeName, CountyName, countyName), RouteType, v);
    }
    forall v | v in UpdateCounty(routeName, routeType, t) ensures v in CountyOptions(t) {
      SubsetOption(t, Matching2(t, Route, routeName, RouteType, routeType), CountyName, v);
    }
  }

  lemma SubsetOption(t: Table, rows: seq<Row>, c: string, v: Value)
    requires forall x | x in rows :: x in t.rows
    requires v in Options(ColumnValues(t, rows, c))
    ensures v in Options(ColumnValues(t, t.rows, c))
  {
    var o := Options(ColumnValues(t, rows, c));
    var k :| 0 <= k < |o| && o[k] == v;
    if k > 0 {
      assert v in o[1..];
      assert v in ColumnValues(t, rows, c);
      assert v in Options(ColumnValues(t, t.rows, c))[1..];
    }
  }

  /** With no selection, or only 'ALL', in both other dropdowns the cascaded list
      is the initial one. */
  lemma UnfilteredRouteNames(routeType: seq<Value>, countyName: seq<Value>, t: Table)
    requires |routeType| < 1 || routeType == [All]
    requires |countyName| < 1 || countyName == [All]
    ensures UpdateRouteNames(routeType, countyName, t) == RouteNameOptions(t)
  {
    FilterKeepsAll(t.rows, x => Get(t, x, RouteType) in Effective(routeType, t, RouteType)
                                && Get(t, x, CountyName) in Effective(countyName, t, CountyName));
  }

  lemma {:induction false} FilterKeepsAll<T(!new)>(s: seq<T>, p: T -> bool)
    requires forall x | x in s :: p(x)
    ensures Filter(s, p) == s
  {
    if s != [] {
      FilterKeepsAll(s[1..], p);
    }
  }

  lemma {:induction false} FilterFilter<T(!new)>(s: seq<T>, p: T -> bool, q: T -> bool, pq: T -> bool)
    requires forall x :: pq(x) == (p(x) && q(x))
    ensures Filter(Filter(s, p), q) == Filter(s, pq)
  {
    if s != [] {
      FilterFilter(s[1..], p, q, pq);
      var fp := Filter(s, p);
      if p(s[0]) {
        assert fp == [s[0]] + Filter(s[1..], p);
        assert fp[0] == s[0] && fp[1..] == Filter(s[1..], p);
      } else {
        assert fp == Filter(s[1..], p);
      }
    }
  }

  /** The year plot keeps a row exactly when its route type, county and route are
      admitted by the three selections, whatever its year. */
  lemma YearPlotRowsSpec(routeType: seq<Value>, countyName: seq<Value>, routeName: seq<Value>, t: Table, x: Row)
    ensures x in YearPlotRows(routeType, countyName, routeName, t)
        <==> && x in t.rows
             && Admits(routeType, Get(t, x, RouteType))
             && Admits(countyName, Get(t, x, CountyName))
             && Admits(routeName, Get(t, x, Route))
  {
    if x in t.rows {
      EffectiveAdmits(routeType, t, RouteType, x);
      EffectiveAdmits(countyName, t, CountyName, x);
      EffectiveAdmits(routeName, t, Route, x);
    }
  }

  /** The map keeps a row exactly when its route type, county and route are
      admitted by the three selections and its year is 2018. */
  lemma MapRowsSpec(routeType: seq<Value>, countyName: seq<Value>, routeName: seq<Value>, t: Table, x: Row)
    ensures x in MapRows(routeType, countyName, routeName, t)
        <==> && x in t.rows
             && Admits(routeType, Get(t, x, RouteType))
             && Admits(countyName, Get(t, x, CountyName))
             && Admits(routeName, Get(t, x, Route))
             && Get(t, x, Year) == Num(2018.0)
  {
    if x in t.rows {
      EffectiveAdmits(routeType, t, RouteType, x);
      EffectiveAdmits(countyName, t, CountyName, x);
      EffectiveAdmits(routeName, t, Route, x);
    }
  }

  /** The map shows exactly the year plot's rows of 2018, in the same order. */
  lemma MapIsYearPlotIn2018(routeType: seq<Value>, countyName: seq<Value>, routeName: seq<Value>, t: Table)
    ensures MapRows(routeType, countyName, routeName, t)
         == Filter(YearPlotRows(routeType, countyName, routeName, t), x => Get(t, x, Year) == Num(2018.0))
  {
    FilterFilter(t.rows,
      x => && Get(t, x, RouteType) in Effective(routeType, t, RouteType)
           && Get(t, x, CountyName) in Effective(countyName, t, CountyName)
           && Get(t, x, Route) in Effective(routeName, t, Route),
      x => Get(t, x, Year) == Num(2018.0),
      x => && Get(t, x, RouteType) in Effective(routeType, t, RouteType)
           && Get(t, x, CountyName) in Effective(countyName, t, CountyName)
           && Get(t, x, Route) in Effective(routeName, t, Route)
           && Get(t, x, Year) == Num(2018.0));
  }

  /** A selection such as ['ALL', x] is not special: it keeps the rows whose value
      is x (or literally 'ALL'), not every row. */
  lemma AllWithOtherFilters(x: Value, t: Table, row: Row)
    requires x != All
    ensures row in YearPlotRows([All, x], [], [], t)
        <==> row in t.rows && (Get(t, row, RouteType) == x || Get(t, row, RouteType) == All)
  {
    if row in t.rows {
      EffectiveAdmits([All, x], t, RouteType, row);
      EffectiveAdmits([], t, CountyName, row);
      EffectiveAdmits([], t, Route, row);
      assert [All, x] != [All];
    }
  }
}
