/** Column-name normalisation (wrangling.py:62-63), the many-to-one alias table
    (44-60, 66) and the float route_type retagging (68-78). */
module ColumnNames {
  import opened Frame

  /** Python's str.isspace: the ASCII and Unicode white-space code points. */
  predicate IsSpace(ch: char)
  {
    var n := ch as int;
    (9 <= n <= 13) || (28 <= n <= 32) || n == 0x85 || n == 0xA0 || n == 0x1680
    || (0x2000 <= n <= 0x200A) || n == 0x2028 || n == 0x2029 || n == 0x202F
    || n == 0x205F || n == 0x3000
  }

  predicate IsUpper(ch: char)
  {
    'A' <= ch <= 'Z'
  }

  function LowerChar(ch: char): char
  {
    if IsUpper(ch) then (ch as int + 32) as char else ch
  }

  /** c.replace('_', '') */
  function RemoveUnderscores(s: string): (r: string)
    ensures forall ch :: ch in r <==> ch in s && ch != '_'
  {
    if s == [] then []
    else (if s[0] == '_' then [] else [s[0]]) + RemoveUnderscores(s[1..])
  }

  /** .lower(), on the ASCII letters */
  function Lower(s: string): (r: string)
    ensures |r| == |s|
    ensures forall ch | ch in r :: !IsUpper(ch)
    ensures forall ch | ch in r && !(ch in s) :: exists u | u in s :: IsUpper(u) && LowerChar(u) == ch
  {
    seq(|s|, i requires 0 <= i < |s| => LowerChar(s[i]))
  }

  /** Drops leading white space: the result is a suffix of s that does not start with a space. */
  function TrimLeft(s: string): (r: string)
    ensures |r| <= |s| && r == s[|s| - |r|..]
    ensures r != [] ==> !IsSpace(r[0])
    ensures forall i | 0 <= i < |s| - |r| :: IsSpace(s[i])
  {
    if s != [] && IsSpace(s[0]) then TrimLeft(s[1..]) else s
  }

  /** Drops trailing white space: the result is a prefix of s that does not end with a space. */
  function TrimRight(s: string): (r: string)
    ensures |r| <= |s| && r == s[..|r|]
    ensures r != [] ==> !IsSpace(r[|r| - 1])
    ensures forall i | |r| <= i < |s| :: IsSpace(s[i])
  {
    if s != [] && IsSpace(s[|s| - 1]) then TrimRight(s[..|s| - 1]) else s
  }

  /** .strip() */
  function Strip(s: string): string
  {
    TrimRight(TrimLeft(s))
  }

  /** The name every raw column is first given (wrangling.py:63). */
  function Normalise(c: string): string
  {
    Strip(Lower(RemoveUnderscores(c)))
  }

  lemma {:induction false} RemoveUnderscoresNoop(s: string)
    requires '_' !in s
    ensures RemoveUnderscores(s) == s
  {
    if s != [] {
      assert s == [s[0]] + s[1..];
      RemoveUnderscoresNoop(s[1..]);
    }
  }

  lemma LowerNoop(s: string)
    requires forall ch | ch in s :: !IsUpper(ch)
    ensures Lower(s) == s
  {
    assert forall i | 0 <= i < |s| :: Lower(s)[i] == s[i] by {
      forall i | 0 <= i < |s| ensures Lower(s)[i] == s[i] {
        assert s[i] in s;
      }
    }
  }

  /** Stripping only removes characters from the two ends. */
  lemma StripShape(s: string)
    ensures forall ch | ch in Strip(s) :: ch in s
    ensures Strip(s) != [] ==> !IsSpace(Strip(s)[0]) && !IsSpace(Strip(s)[|Strip(s)| - 1])
  {
    var m := TrimLeft(s);
    var n := TrimRight(m);
    forall ch | ch in n ensures ch in s {
      var i :| 0 <= i < |n| && n[i] == ch;
      assert m[i] == ch;
      assert s[|s| - |m| + i] == ch;
    }
    if n != [] {
      assert n[0] == m[0];
    }
  }

  /** A normalised name holds no underscore, no upper-case letter, and neither
      starts nor ends with white space. */
  lemma NormaliseShape(c: string)
    ensures '_' !in Normalise(c)
    ensures forall ch | ch in Normalise(c) :: !IsUpper(ch)
    ensures Normalise(c) != [] ==> !IsSpace(Normalise(c)[0]) && !IsSpace(Normalise(c)[|Normalise(c)| - 1])
  {
    var u := RemoveUnderscores(c);
    var l := Lower(u);
    StripShape(l);
    if '_' in l {
      var i :| 0 <= i < |l| && l[i] == '_';
      assert u[i] in u;
    }
  }

  /** Normalising is idempotent. */
  lemma NormaliseIdempotent(c: string)
    ensures Normalise(Normalise(c)) == Normalise(c)
  {
    var n := Normalise(c);
    NormaliseShape(c);
    RemoveUnderscoresNoop(n);
    LowerNoop(n);
    assert TrimLeft(n) == n;
    assert TrimRight(n) == n;
  }

  /** The alias table of wrangling.py:44-60: normalised raw name to canonical name. */
  const Aliases: map<string, string> := map[
    "station" := "station_id", "stationnu" := "station_id", "stationnum" := "station_id",
    "milepoint" := "route_mile_point", "metermile" := "route_mile_point", "metermilep" := "route_mile_point",
    "latitude" := "latitude", "lat" := "latitude",
    "longitude" := "longitude", "long" := "longitude",
    "aadtyr" := "year", "year" := "year", "factored1" := "year", "factoreda1" := "year",
    "routelrs" := "route_identifier", "maplrs" := "route_identifier",
    "termini" := "route_leg_descrip", "descriptio" := "route_leg_descrip",
    "beginmilep" := "route_leg_beginmile", "beginmile" := "route_leg_beginmile", "bmp" := "route_leg_beginmile",
    "endmilepo" := "route_leg_endmile", "endmilepoi" := "route_leg_endmile", "emp" := "route_leg_endmile",
    "routetype" := "route_type", "rtetype" := "route_type", "routetypen" := "route_type", "routetype1" := "route_type",
    "rtenum" := "route_number", "rtenumb" := "route_number", "routenumb" := "route_number",
    "routenum" := "route_number", "routenumbe" := "route_number",
    "county" := "county_name", "countyname" := "county_name", "countynam" := "county_name",
    "countyid" := "county_id", "countynumb" := "county_id",
    "aadt" := "average_daily_traffic", "factoreda" := "average_daily_traffic",
    "count" := "average_daily_traffic", "factoredaa" := "average_daily_traffic",
    "id1" := "row_number"
  ]

  /** df.rename(columns=...): an aliased name becomes its canonical name, any other is kept. */
  function Rename(c: string): string
  {
    if c in Aliases then Aliases[c] else c
  }

  /** Lines 62-66: every column gets the normalised name, then its alias; dtypes
      and cells are untouched. */
  function NormaliseColumns(t: Table): (r: Table)
    ensures r.rows == t.rows && |r.cols| == |t.cols|
    ensures forall i | 0 <= i < |t.cols| :: r.cols[i] == Column(Rename(Normalise(t.cols[i].name)), t.cols[i].dtype)
  {
    Table(seq(|t.cols|, i requires 0 <= i < |t.cols| =>
                Column(Rename(Normalise(t.cols[i].name)), t.cols[i].dtype)),
          t.rows)
  }

  /** Lines 68-78: a float-typed route_type column is the route type NUMBER. */
  function RetagColumn(col: Column): Column
  {
    if col == Column(RouteType, Float) then Column(RouteTypeNumber, Float) else col
  }

  function Retag(t: Table): (r: Table)
    ensures r.rows == t.rows && |r.cols| == |t.cols|
    ensures forall i | 0 <= i < |t.cols| :: r.cols[i].dtype == t.cols[i].dtype
    ensures forall i | 0 <= i < |t.cols| ::
      r.cols[i].name == (if t.cols[i].name == RouteType && t.cols[i].dtype == Float
                         then RouteTypeNumber else t.cols[i].name)
    ensures forall i | 0 <= i < |r.cols| :: r.cols[i] != Column(RouteType, Float)
  {
    Table(seq(|t.cols|, i requires 0 <= i < |t.cols| => RetagColumn(t.cols[i])), t.rows)
  }

  /** Retagging a second time changes nothing. */
  lemma RetagIdempotent(t: Table)
    ensures Retag(Retag(t)) == Retag(t)
  {
    assert Retag(Retag(t)).cols == Retag(t).cols;
  }

  /** The whole naming stage of one year's frame. */
  function NameColumns(t: Table): Table
  {
    Retag(NormaliseColumns(t))
  }
}
