/** The final label and value corrections of wrangling.py:188-192. */
module Finish {
  import opened Frame
  import opened Ordering
  import opened Change

  /** Every occurrence of ch removed from s. */
  function Without(s: string, ch: char): (r: string)
    ensures forall x :: x in r <==> x in s && x != ch
    ensures |r| <= |s|
  {
    if s == [] then []
    else
      var r := (if s[0] == ch then [] else [s[0]]) + Without(s[1..], ch);
      assert forall x | x in s :: x == s[0] || x in s[1..];
      r
  }

  /** Removing ch works character by character and keeps the order and the
      number of every other character: it splits over concatenation, and one
      character is dropped exactly when it is ch. */
  lemma {:induction false} WithoutAppend(a: string, b: string, ch: char)
    ensures Without(a + b, ch) == Without(a, ch) + Without(b, ch)
  {
    if a == [] {
      assert a + b == b;
    } else {
      var ab := a + b;
      assert ab[0] == a[0] && ab[1..] == a[1..] + b;
      WithoutAppend(a[1..], b, ch);
      var h := if a[0] == ch then [] else [a[0]];
      var x, y := Without(a[1..], ch), Without(b, ch);
      assert Without(ab, ch) == h + (x + y);
      assert h + (x + y) == (h + x) + y;
    }
  }

  /** One character is dropped exactly when it is ch. */
  lemma WithoutOne(x: char, ch: char)
    ensures Without([x], ch) == if x == ch then [] else [x]
  {
    assert [x][1..] == [];
  }

  lemma {:induction false} WithoutAbsent(s: string, ch: char)
    requires ch !in s
    ensures Without(s, ch) == s
  {
    if s != [] {
      WithoutAbsent(s[1..], ch);
      assert s == [s[0]] + s[1..];
    }
  }

  /** route_type.str.replace('-', ''); a cell that is not text becomes NaN. */
  function StripDash(v: Value): Value
  {
    if v.Str? then Str(Without(v.s, '-')) else Missing
  }

  /** route_number.astype('str'): text as it is, a number as Python writes it
      (showNum), NaN as "nan". */
  function NumberText(v: Value, showNum: real -> string): string
  {
    match v
    case Str(s) => s
    case Num(x) => showNum(x)
    case Missing => "nan"
  }

  /** Line 189: type, a dash, and the number; NaN when the type is NaN. */
  function RouteLabel(routeType: Value, routeNumber: Value, showNum: real -> string): (r: Value)
    ensures r.Str? <==> routeType.Str?
    ensures r.Str? ==> r.s == routeType.s + "-" + NumberText(routeNumber, showNum)
  {
    if routeType.Str? then Str(routeType.s + "-" + NumberText(routeNumber, showNum)) else Missing
  }

  /** astype('int') of a float: truncation toward zero. */
  function Trunc(x: real): (n: int)
    ensures 0.0 <= x ==> n as real <= x < n as real + 1.0
    ensures x < 0.0 ==> n as real - 1.0 < x <= n as real
  {
    if x >= 0.0 then x.Floor else -((-x).Floor)
  }

  function TruncYear(v: Value): Value
  {
    if v.Num? then Num(Trunc(v.x) as real) else v
  }

  predicate IsLower(ch: char)
  {
    'a' <= ch <= 'z'
  }

  function UpperChar(ch: char): char
  {
    if IsLower(ch) then (ch as int - 32) as char else ch
  }

  /** str.upper on the ASCII letters. */
  function Upper(s: string): (r: string)
    ensures |r| == |s| && forall ch | ch in r :: !IsLower(ch)
    ensures forall i | 0 <= i < |s| && IsLower(s[i]) :: r[i] as int == s[i] as int - 32 && 'A' <= r[i] <= 'Z'
    ensures forall i | 0 <= i < |s| && !IsLower(s[i]) :: r[i] == s[i]
  {
    seq(|s|, i requires 0 <= i < |s| => UpperChar(s[i]))
  }

  /** county_name.str.upper(); a cell that is not text becomes NaN. */
  function UpperValue(v: Value): Value
  {
    if v.Str? then Str(Upper(v.s)) else Missing
  }

  /** The rows selected at line 192. */
  predicate Is385(t: Table, r: Row)
  {
    Get(t, r, RouteNumber) == Num(385.0)
  }

  /** Line 192: route type 'I' and route type number 1 on the rows of route 385. */
  function Fix385(t: Table): (r: Table)
    ensures r.cols == t.cols && |r.rows| == |t.rows|
    ensures WellFormed(t) ==> WellFormed(r)
  {
    var a := SetColumn(t, RouteType, seq(|t.rows|, i requires 0 <= i < |t.rows| =>
               if Is385(t, t.rows[i]) then Str("I") else Get(t, t.rows[i], RouteType)));
    SetColumn(a, RouteTypeNumber, seq(|t.rows|, i requires 0 <= i < |t.rows| =>
      if Is385(t, t.rows[i]) then Num(1.0) else Get(t, t.rows[i], RouteTypeNumber)))
  }

  function Labelled(t: Table, showNum: real -> string): (r: Table)
    ensures |r.rows| == |t.rows| && forall d :: Has(r, d) <==> Has(t, d) || d == Route
    ensures WellFormed(t) ==> WellFormed(r)
  {
    Assign(t, Column(Route, Text), seq(|t.rows|, i requires 0 <= i < |t.rows| =>
      RouteLabel(Get(t, t.rows[i], RouteType), Get(t, t.rows[i], RouteNumber), showNum)))
  }

  /** Every year of the frame is a number, so astype('int') succeeds. */
  predicate NumericYears(t: Table)
  {
    forall x | x in t.rows :: Get(t, x, Year).Num?
  }

  /** Lines 188-192; the integer cast raises on a year that is not a number. */
  function FinalCorrections(t: Table, showNum: real -> string): (r: Result<Table>)
    ensures r.Ok? <==> NumericYears(t)
    ensures r.Err? <==> exists x | x in t.rows :: !Get(t, x, Year).Num?
    ensures r.Ok? ==> |r.value.rows| == |t.rows| && forall d :: Has(r.value, d) <==> Has(t, d) || d == Route
  {
    if exists x | x in t.rows :: !Get(t, x, Year).Num? then Err(YearNotInteger)
    else
      var t1 := MapColumn(t, RouteType, StripDash);
      var t2 := Labelled(t1, showNum);
      var t3 := MapColumn(t2, Year, TruncYear);
      var t4 := MapColumn(t3, CountyName, UpperValue);
      Ok(Fix385(t4))
  }

  /** Each row after lines 188-192: the route type loses its dashes, the route
      label is built from that type and the number, the year is truncated to an
      integer, the county is upper-cased, and route 385 is then re-typed as 'I', 1
      without its label being rebuilt; every other column is as it was. */
  lemma FinalSpec(t: Table, showNum: real -> string, i: nat, d: string)
    requires WellFormed(t) && i < |t.rows| && NumericYears(t)
    requires Has(t, RouteType) && Has(t, RouteTypeNumber)
    ensures var r := FinalCorrections(t, showNum).value;
      && Get(r, r.rows[i], RouteType)
         == (if Is385(t, t.rows[i]) then Str("I") else StripDash(Get(t, t.rows[i], RouteType)))
      && Get(r, r.rows[i], RouteTypeNumber)
         == (if Is385(t, t.rows[i]) then Num(1.0) else Get(t, t.rows[i], RouteTypeNumber))
      && Get(r, r.rows[i], Route)
         == RouteLabel(StripDash(Get(t, t.rows[i], RouteType)), Get(t, t.rows[i], RouteNumber), showNum)
      && Get(t, t.rows[i], Year).Num?
      && Get(r, r.rows[i], Year) == Num(Trunc(Get(t, t.rows[i], Year).x) as real)
      && Get(r, r.rows[i], CountyName) == UpperValue(Get(t, t.rows[i], CountyName))
      && Get(r, r.rows[i], RouteNumber) == Get(t, t.rows[i], RouteNumber)
      && (d != RouteType && d != RouteTypeNumber && d != Route && d != Year && d != CountyName
          ==> Get(r, r.rows[i], d) == Get(t, t.rows[i], d))
  {
    var x := t.rows[i];
    assert Get(t, x, Year).Num?;
    var t1 := MapColumn(t, RouteType, StripDash);
    var t2 := Labelled(t1, showNum);
    var t3 := MapColumn(t2, Year, TruncYear);
    var t4 := MapColumn(t3, CountyName, UpperValue);
    var labels := seq(|t1.rows|, j requires 0 <= j < |t1.rows| =>
      RouteLabel(Get(t1, t1.rows[j], RouteType), Get(t1, t1.rows[j], RouteNumber), showNum));
    forall e ensures Get(t4, t4.rows[i], e)
      == if e == CountyName then UpperValue(Get(t, x, CountyName))
         else if e == Year then TruncYear(Get(t, x, Year))
         else if e == Route then RouteLabel(StripDash(Get(t, x, RouteType)), Get(t, x, RouteNumber), showNum)
         else if e == RouteType then StripDash(Get(t, x, RouteType))
         else Get(t, x, e)
    {
      MapColumnGet(t, RouteType, StripDash, i, e);
      MapColumnGet(t, RouteType, StripDash, i, RouteNumber);
      MapColumnGet(t, RouteType, StripDash, i, RouteType);
      AssignGet(t1, Column(Route, Text), labels, i, e);
      MapColumnGet(t2, Year, TruncYear, i, e);
      MapColumnGet(t3, CountyName, UpperValue, i, e);
      MapColumnGet(t, RouteType, StripDash, i, Year);
      AssignGet(t1, Column(Route, Text), labels, i, Year);
      MapColumnGet(t, RouteType, StripDash, i, CountyName);
      AssignGet(t1, Column(Route, Text), labels, i, CountyName);
      MapColumnGet(t2, Year, TruncYear, i, CountyName);
    }
    Fix385Get(t4, i, RouteType);
    Fix385Get(t4, i, RouteTypeNumber);
    Fix385Get(t4, i, d);
    Fix385Get(t4, i, Route);
    Fix385Get(t4, i, Year);
    Fix385Get(t4, i, CountyName);
    Fix385Get(t4, i, RouteNumber);
  }

  lemma Fix385Get(t: Table, i: nat, d: string)
    requires WellFormed(t) && i < |t.rows|
    ensures Get(Fix385(t), Fix385(t).rows[i], d)
         == if Is385(t, t.rows[i]) && Has(t, d) && d == RouteType then Str("I")
            else if Is385(t, t.rows[i]) && Has(t, d) && d == RouteTypeNumber then Num(1.0)
            else Get(t, t.rows[i], d)
  {
    var v1 := seq(|t.rows|, j requires 0 <= j < |t.rows| =>
                if Is385(t, t.rows[j]) then Str("I") else Get(t, t.rows[j], RouteType));
    var v2 := seq(|t.rows|, j requires 0 <= j < |t.rows| =>
                if Is385(t, t.rows[j]) then Num(1.0) else Get(t, t.rows[j], RouteTypeNumber));
    var a := SetColumn(t, RouteType, v1);
    SetColumnGet(t, RouteType, v1, i, d);
    SetColumnGet(t, RouteType, v1, i, RouteTypeNumber);
    SetColumnGet(a, RouteTypeNumber, v2, i, d);
  }

  /** No route type keeps a dash: it is dash-free text, NaN, or the 'I' of route 385. */
  lemma FinalRouteTypeHasNoDash(t: Table, showNum: real -> string, i: nat)
    requires WellFormed(t) && i < |t.rows| && NumericYears(t)
    requires Has(t, RouteType) && Has(t, RouteTypeNumber)
    ensures var r := FinalCorrections(t, showNum).value;
            var v := Get(r, r.rows[i], RouteType);
            v.Str? ==> '-' !in v.s
  {
    FinalSpec(t, showNum, i, RouteType);
  }

  /** On route 385 the label still carries the type the row had before the
      correction: a route 385 typed 'S' becomes type 'I' but keeps the label
      'S-' followed by the number. */
  lemma Route385KeepsOldLabel(t: Table, showNum: real -> string, i: nat, s: string)
    requires WellFormed(t) && i < |t.rows| && NumericYears(t)
    requires Has(t, RouteType) && Has(t, RouteTypeNumber)
    requires Is385(t, t.rows[i]) && Get(t, t.rows[i], RouteType) == Str(s) && '-' !in s
    ensures var r := FinalCorrections(t, showNum).value;
            && Get(r, r.rows[i], RouteType) == Str("I")
            && Get(r, r.rows[i], Route) == Str(s + "-" + showNum(385.0))
  {
    FinalSpec(t, showNum, i, RouteType);
    WithoutAbsent(s, '-');
  }

  lemma TruncMonotone(x: real, y: real)
    requires x <= y
    ensures Trunc(x) <= Trunc(y)
  {
  }

  /** Comparing two tuples of the same length that differ is decided before any
      component appended to both. */
  lemma {:induction false} KeyLtAppend(k1: seq<Value>, k2: seq<Value>, a: Value, b: Value)
    requires |k1| == |k2|
    ensures k1 != k2 ==> KeyLt(k1 + [a], k2 + [b]) == KeyLt(k1, k2)
    ensures k1 == k2 ==> KeyLt(k1 + [a], k2 + [b]) == ValueLt(a, b)
  {
    if k1 == [] {
      assert k1 + [a] == [a] && k2 + [b] == [b];
    } else {
      assert (k1 + [a])[0] == k1[0] && (k1 + [a])[1..] == k1[1..] + [a];
      assert (k2 + [b])[0] == k2[0] && (k2 + [b])[1..] == k2[1..] + [b];
      if k1[0] == k2[0] {
        assert k1 == [k1[0]] + k1[1..] && k2 == [k2[0]] + k2[1..];
        ValueLtIrreflexive(k1[0]);
        KeyLtAppend(k1[1..], k2[1..], a, b);
      }
    }
  }

  /** Truncating both years keeps two sort keys in order. */
  lemma TruncKeepsOrder(k1: seq<Value>, k2: seq<Value>, y1: Value, y2: Value)
    requires |k1| == |k2| && y1.Num? && y2.Num? && !KeyLt(k2 + [y2], k1 + [y1])
    ensures !KeyLt(k2 + [TruncYear(y2)], k1 + [TruncYear(y1)])
  {
    KeyLtAppend(k2, k1, y2, y1);
    KeyLtAppend(k2, k1, TruncYear(y2), TruncYear(y1));
    if k1 == k2 {
      TruncMonotone(y1.x, y2.x);
    }
  }

  /** The final corrections keep a sorted frame sorted: they do not touch the
      identity, and truncating the year is monotone. */
  lemma FinalKeepsSorted(t: Table, showNum: real -> string)
    requires WellFormed(t) && SortedBy(t, t.rows) && NumericYears(t)
    requires Has(t, RouteType) && Has(t, RouteTypeNumber)
    ensures SortedBy(FinalCorrections(t, showNum).value, FinalCorrections(t, showNum).value.rows)
  {
    var r := FinalCorrections(t, showNum).value;
    forall i | 0 <= i < |t.rows|
      ensures Key(r, r.rows[i]) == Key(t, t.rows[i])
      ensures Get(t, t.rows[i], Year).Num? && Get(r, r.rows[i], Year) == TruncYear(Get(t, t.rows[i], Year))
    {
      FinalSpec(t, showNum, i, StationId);
      FinalSpec(t, showNum, i, RouteIdentifier);
    }
    forall a, b | 0 <= a < b < |r.rows| ensures !KeyLt(SortKey(r, r.rows[b]), SortKey(r, r.rows[a])) {
      TruncKeepsOrder(Key(t, t.rows[a]), Key(t, t.rows[b]), Get(t, t.rows[a], Year), Get(t, t.rows[b], Year));
    }
  }
}
