/** The per-year cleaning of wrangling.py:80-117: dropping bad and duplicated
    columns, dropping the row identifiers and duplicated rows, the route-type
    corrections, and collapsing each identity to one row carrying the group-mean
    traffic. */
module Clean {
  import opened Frame

  /** df.drop(c, axis=1): every column labelled c goes, the others keep their order. */
  function DropNamed(t: Table, c: string): (r: Table)
    ensures forall d :: Has(r, d) <==> Has(t, d) && d != c
    ensures |r.rows| == |t.rows| && WellFormed(r)
  {
    var names := Names(t.cols);
    var idx := IndicesExcept(names, c);
    var r := Select(t, idx);
    assert forall k | 0 <= k < |r.cols| :: Names(r.cols)[k] == names[idx[k]];
    forall d | Has(t, d) && d != c ensures Has(r, d) {
      var k := IndexOf(idx, IndexOf(names, d));
      assert Names(r.cols)[k] == d;
    }
    r
  }

  /** Dropping c changes what no other label reads, and every other label stays. */
  lemma DropNamedGet(t: Table, c: string, i: nat, d: string)
    requires i < |t.rows| && d != c
    ensures Get(DropNamed(t, c), DropNamed(t, c).rows[i], d) == Get(t, t.rows[i], d)
  {
    SelectGet(t, IndicesExcept(Names(t.cols), c), i, d);
  }

  /** df.loc[:, ~df.columns.duplicated()] (wrangling.py:88): the first column of
      each label is kept, so the labels become distinct and each still reads the
      same cells. */
  function DedupColumns(t: Table): (r: Table)
    ensures Distinct(Names(r.cols)) && |r.rows| == |t.rows| && WellFormed(r)
    ensures forall c :: Has(r, c) <==> Has(t, c)
  {
    var names := Names(t.cols);
    var idx := FirstIndices(names);
    var r := Select(t, idx);
    assert Names(r.cols) == Pick(names, idx);
    FirstIndicesDistinct(names);
    forall c | Has(t, c) ensures Has(r, c) {
      FirstIndicesCover(names, IndexOf(names, c));
    }
    r
  }

  lemma DedupColumnsGet(t: Table, i: nat, c: string)
    requires i < |t.rows|
    ensures Get(DedupColumns(t), DedupColumns(t).rows[i], c) == Get(t, t.rows[i], c)
  {
    SelectGet(t, FirstIndices(Names(t.cols)), i, c);
  }

  /** Lines 94-96: the row sequence number goes, and the secondary id when present. */
  function DropIds(t: Table): (r: Table)
    ensures forall d :: Has(r, d) <==> Has(t, d) && d != RowNumber && d != Id2
    ensures |r.rows| == |t.rows| && WellFormed(r)
  {
    var t1 := DropNamed(t, RowNumber);
    if Has(t1, Id2) then DropNamed(t1, Id2) else t1
  }

  lemma DropIdsGet(t: Table, i: nat, d: string)
    requires i < |t.rows| && d != RowNumber && d != Id2
    ensures Get(DropIds(t), DropIds(t).rows[i], d) == Get(t, t.rows[i], d)
  {
    var t1 := DropNamed(t, RowNumber);
    DropNamedGet(t, RowNumber, i, d);
    if Has(t1, Id2) {
      DropNamedGet(t1, Id2, i, d);
    }
  }

  /** df.drop_duplicates() (line 97): the first of every set of identical rows is
      kept, in order; no two remaining rows are identical and no row is lost
      without an identical one remaining. */
  function DropDuplicateRows(t: Table): (r: Table)
    ensures r.cols == t.cols && Distinct(r.rows)
    ensures forall x :: x in r.rows <==> x in t.rows
    ensures WellFormed(t) ==> WellFormed(r)
  {
    var idx := FirstIndices(t.rows);
    FirstIndicesDistinct(t.rows);
    forall x | x in t.rows ensures x in Pick(t.rows, idx) {
      FirstIndicesCover(t.rows, IndexOf(t.rows, x));
    }
    Table(t.cols, Pick(t.rows, idx))
  }

  /** drop_duplicates keeps rows in their input order, and each kept row is the
      first occurrence of its contents: the kept rows sit at increasing positions
      idx of the input, none of which repeats an earlier row. */
  lemma DropDuplicateRowsOrder(t: Table) returns (idx: seq<nat>)
    ensures SubseqAt(t.rows, DropDuplicateRows(t).rows, idx)
    ensures forall k | 0 <= k < |idx| :: t.rows[idx[k]] !in t.rows[..idx[k]]
  {
    idx := FirstIndices(t.rows);
  }

  /** Every 'L' of a text replaced by 'S' (str.replace('L', 'S')). */
  function ReplaceL(s: string): (r: string)
    ensures |r| == |s| && 'L' !in r
    ensures forall i | 0 <= i < |s| && s[i] == 'L' :: r[i] == 'S'
    ensures forall i | 0 <= i < |s| && s[i] != 'L' :: r[i] == s[i]
  {
    seq(|s|, i requires 0 <= i < |s| => if s[i] == 'L' then 'S' else s[i])
  }

  /** The route_type correction of line 103; the .str accessor turns a cell that
      is not text into NaN. */
  function FixRouteType(v: Value): Value
  {
    if v.Str? then Str(ReplaceL(v.s)) else Missing
  }

  /** The route_type_number correction of line 105. */
  function RemapNine(v: Value): Value
  {
    if v == Num(9.0) then Num(7.0) else v
  }

  /** Lines 101-105. */
  function Correct(t: Table): Table
  {
    MapColumn(MapColumn(t, RouteType, FixRouteType), RouteTypeNumber, RemapNine)
  }

  /** After the corrections no route type holds an 'L' and no route type number is
      9; every other column, and every other character and value, is as before. */
  lemma CorrectSpec(t: Table, i: nat, d: string)
    requires WellFormed(t) && i < |t.rows|
    ensures WellFormed(Correct(t)) && Correct(t).cols == t.cols && |Correct(t).rows| == |t.rows|
    ensures var v := Get(Correct(t), Correct(t).rows[i], RouteType); v.Str? ==> 'L' !in v.s
    ensures Get(Correct(t), Correct(t).rows[i], RouteTypeNumber) != Num(9.0)
    ensures Has(t, RouteType) ==> Get(Correct(t), Correct(t).rows[i], RouteType) == FixRouteType(Get(t, t.rows[i], RouteType))
    ensures Get(Correct(t), Correct(t).rows[i], RouteTypeNumber) == RemapNine(Get(t, t.rows[i], RouteTypeNumber))
    ensures d != RouteType && d != RouteTypeNumber ==> Get(Correct(t), Correct(t).rows[i], d) == Get(t, t.rows[i], d)
  {
    var t1 := MapColumn(t, RouteType, FixRouteType);
    MapColumnGet(t, RouteType, FixRouteType, i, RouteType);
    MapColumnGet(t, RouteType, FixRouteType, i, RouteTypeNumber);
    MapColumnGet(t, RouteType, FixRouteType, i, d);
    MapColumnGet(t1, RouteTypeNumber, RemapNine, i, RouteType);
    MapColumnGet(t1, RouteTypeNumber, RemapNine, i, RouteTypeNumber);
    MapColumnGet(t1, RouteTypeNumber, RemapNine, i, d);
  }

  function Sum(xs: seq<real>): real
  {
    if xs == [] then 0.0 else Sum(xs[..|xs| - 1]) + xs[|xs| - 1]
  }

  function Mean(xs: seq<real>): real
    requires xs != []
  {
    Sum(xs) / (|xs| as real)
  }

  /** The traffic numbers of the rows carrying identity k, in row order; NaN
      cells do not take part in the mean. */
  function GroupAdt(t: Table, rows: seq<Row>, k: seq<Value>): (xs: seq<real>)
    ensures forall x :: x in xs <==> exists r | r in rows :: Key(t, r) == k && Get(t, r, Adt) == Num(x)
  {
    if rows == [] then []
    else
      var last := rows[|rows| - 1];
      var xs := GroupAdt(t, rows[..|rows| - 1], k);
      assert forall r | r in rows :: r in rows[..|rows| - 1] || r == last;
      var v := Get(t, last, Adt);
      if Key(t, last) == k && v.Num? then xs + [v.x] else xs
  }

  /** The numbers of a group are collected row by row: those of a + b are those
      of a followed by those of b. With `GroupAdtOne` this says that every row of
      the group adds exactly one entry, in row order. */
  lemma {:induction false} GroupAdtAppend(t: Table, a: seq<Row>, b: seq<Row>, k: seq<Value>)
    ensures GroupAdt(t, a + b, k) == GroupAdt(t, a, k) + GroupAdt(t, b, k)
    decreases |b|
  {
    if b == [] {
      assert a + b == a;
    } else {
      var n := |b| - 1;
      var ab := a + b;
      assert ab[..|ab| - 1] == a + b[..n] && ab[|ab| - 1] == b[n];
      GroupAdtAppend(t, a, b[..n], k);
      GroupAdtLast(t, ab, k);
      GroupAdtLast(t, b, k);
      var x, y, z := GroupAdt(t, a, k), GroupAdt(t, b[..n], k), GroupAdt(t, [b[n]], k);
      assert x + y + z == x + (y + z);
    }
  }

  /** The last row's contribution is appended to that of the rows before it. */
  lemma GroupAdtLast(t: Table, rows: seq<Row>, k: seq<Value>)
    requires rows != []
    ensures GroupAdt(t, rows, k) == GroupAdt(t, rows[..|rows| - 1], k) + GroupAdt(t, [rows[|rows| - 1]], k)
  {
    GroupAdtOne(t, rows[|rows| - 1], k);
  }

  /** One row contributes its own traffic when it carries identity k and a number
      there, and nothing otherwise. */
  lemma GroupAdtOne(t: Table, x: Row, k: seq<Value>)
    ensures GroupAdt(t, [x], k) == if Key(t, x) == k && Get(t, x, Adt).Num? then [Get(t, x, Adt).x] else []
  {
    assert [x][..0] == [];
  }

  /** groupby(key).average_daily_traffic.transform('mean') for identity k. */
  function GroupMean(t: Table, k: seq<Value>): Value
  {
    var xs := GroupAdt(t, t.rows, k);
    if xs == [] then Missing else Num(Mean(xs))
  }

  lemma {:induction false} SumBounds(xs: seq<real>, lo: real, hi: real)
    requires forall x | x in xs :: lo <= x <= hi
    ensures (|xs| as real) * lo <= Sum(xs) <= (|xs| as real) * hi
  {
    if xs != [] {
      var n := |xs| - 1;
      assert forall x | x in xs[..n] :: x in xs;
      SumBounds(xs[..n], lo, hi);
      assert xs[n] in xs;
    }
  }

  /** The averaged traffic never leaves the range of the measurements it averages. */
  lemma MeanBounds(xs: seq<real>, lo: real, hi: real)
    requires xs != [] && forall x | x in xs :: lo <= x <= hi
    ensures lo <= Mean(xs) <= hi
  {
    SumBounds(xs, lo, hi);
    var n := |xs| as real;
    assert n * lo <= Sum(xs) <= n * hi;
    assert lo == (n * lo) / n && hi == (n * hi) / n;
  }

  /** Line 109: every row's traffic becomes the mean over its identity group,
      computed from the values before the assignment. */
  function WithGroupMeans(t: Table): Table
  {
    SetColumn(t, Adt, seq(|t.rows|, i requires 0 <= i < |t.rows| => GroupMean(t, Key(t, t.rows[i]))))
  }

  /** groupby(key).head(1) (line 116): the first row of every identity, in order. */
  function HeadPerKey(t: Table): (r: Table)
    ensures r.cols == t.cols && Distinct(Keys(r, r.rows))
    ensures forall k | k in Keys(t, t.rows) :: k in Keys(r, r.rows)
    ensures WellFormed(t) ==> WellFormed(r)
  {
    var keys := Keys(t, t.rows);
    var idx := FirstIndices(keys);
    var r := Table(t.cols, Pick(t.rows, idx));
    assert Keys(r, r.rows) == Pick(keys, idx);
    FirstIndicesDistinct(keys);
    forall k | k in keys ensures k in Keys(r, r.rows) {
      FirstIndicesCover(keys, IndexOf(keys, k));
    }
    r
  }

  /** head(1) keeps rows in their input order, and each kept row is the first row
      of its identity: the kept rows sit at increasing positions idx of the input,
      none of which repeats an earlier identity. */
  lemma HeadPerKeyOrder(t: Table) returns (idx: seq<nat>)
    ensures SubseqAt(t.rows, HeadPerKey(t).rows, idx)
    ensures forall k | 0 <= k < |idx| :: Keys(t, t.rows)[idx[k]] !in Keys(t, t.rows)[..idx[k]]
  {
    idx := FirstIndices(Keys(t, t.rows));
  }

  /** Lines 108-117 for one year. */
  function Collapse(t: Table): Table
  {
    HeadPerKey(DropDuplicateRows(WithGroupMeans(t)))
  }

  /** What a row of the collapsed frame is: the first row of its identity in the
      year's frame, with the traffic replaced by the group mean. */
  ghost predicate CollapsedFrom(t: Table, c: Table, row: Row, j: nat)
  {
    && j < |t.rows|
    && (forall i | 0 <= i < j :: Key(t, t.rows[i]) != Key(t, t.rows[j]))
    && Key(c, row) == Key(t, t.rows[j])
    && Get(c, row, Adt) == GroupMean(t, Key(t, t.rows[j]))
    && (forall d | d != Adt :: Get(c, row, d) == Get(t, t.rows[j], d))
  }

  /** Two frames with the same header read the same identity from a row. */
  lemma KeySameCols(t: Table, u: Table, r: Row)
    requires t.cols == u.cols
    ensures Key(t, r) == Key(u, r)
  {
  }

  /** No identity of the year's frame is lost by the collapse. */
  lemma CollapseKeepsKeys(t: Table, i: nat)
    requires WellFormed(t) && Has(t, Adt) && i < |t.rows|
    ensures Key(t, t.rows[i]) in Keys(Collapse(t), Collapse(t).rows)
  {
    var m := WithGroupMeans(t);
    var d := DropDuplicateRows(m);
    WithGroupMeansGet(t, i);
    assert m.rows[i] in d.rows;
    var q := IndexOf(d.rows, m.rows[i]);
    KeySameCols(d, m, m.rows[i]);
    assert Keys(d, d.rows)[q] == Key(t, t.rows[i]);
  }

  /** Each kept row is the first of its group in the year's frame, carrying the
      group-mean traffic. */
  lemma CollapseRowFrom(t: Table, p: nat) returns (j: nat)
    requires WellFormed(t) && Has(t, Adt) && p < |Collapse(t).rows|
    ensures CollapsedFrom(t, Collapse(t), Collapse(t).rows[p], j)
  {
    var m := WithGroupMeans(t);
    var r := Collapse(t);
    j := FirstOfGroup(m, p);
    WithGroupMeansGet(t, j);
    assert r.cols == m.cols;
    KeySameCols(r, m, r.rows[p]);
    forall i | 0 <= i < j ensures Key(t, t.rows[i]) != Key(t, t.rows[j]) {
      WithGroupMeansGet(t, i);
    }
  }

  /** The identity key is unique after the collapse and no identity is lost. */
  lemma CollapseSpec(t: Table)
    requires WellFormed(t) && Has(t, Adt)
    ensures Distinct(Keys(Collapse(t), Collapse(t).rows))
    ensures forall i | 0 <= i < |t.rows| :: Key(t, t.rows[i]) in Keys(Collapse(t), Collapse(t).rows)
  {
    var c := Collapse(t);
    forall i | 0 <= i < |t.rows| ensures Key(t, t.rows[i]) in Keys(c, c.rows) {
      CollapseKeepsKeys(t, i);
    }
  }

  /** The traffic column after line 109, and every other column unchanged. */
  lemma WithGroupMeansGet(t: Table, i: nat)
    requires WellFormed(t) && Has(t, Adt) && i < |t.rows|
    ensures WellFormed(WithGroupMeans(t)) && WithGroupMeans(t).cols == t.cols
    ensures |WithGroupMeans(t).rows| == |t.rows|
    ensures Get(WithGroupMeans(t), WithGroupMeans(t).rows[i], Adt) == GroupMean(t, Key(t, t.rows[i]))
    ensures forall d | d != Adt :: Get(WithGroupMeans(t), WithGroupMeans(t).rows[i], d) == Get(t, t.rows[i], d)
    ensures Key(WithGroupMeans(t), WithGroupMeans(t).rows[i]) == Key(t, t.rows[i])
  {
    var vals := seq(|t.rows|, i requires 0 <= i < |t.rows| => GroupMean(t, Key(t, t.rows[i])));
    forall d ensures Get(WithGroupMeans(t), WithGroupMeans(t).rows[i], d)
                   == if d == Adt then vals[i] else Get(t, t.rows[i], d) {
      SetColumnGet(t, Adt, vals, i, d);
    }
  }

  /** A row before the q-th first occurrence repeats an earlier first occurrence. */
  lemma EarlierFirst(rows: seq<Row>, q: nat, i: nat) returns (q0: nat)
    requires q < |FirstIndices(rows)| && i < FirstIndices(rows)[q]
    ensures q0 < q && rows[FirstIndices(rows)[q0]] == rows[i]
  {
    var F := FirstIndices(rows);
    var i0 := IndexOf(rows, rows[i]);
    assert i0 in F;
    q0 := IndexOf(F, i0);
  }

  /** The dropped duplicates never hide the first row of an identity: the p-th
      row of head(1) after drop_duplicates is the first row of its identity in m. */
  lemma FirstOfGroup(m: Table, p: nat) returns (j: nat)
    requires p < |HeadPerKey(DropDuplicateRows(m)).rows|
    ensures j < |m.rows| && HeadPerKey(DropDuplicateRows(m)).rows[p] == m.rows[j]
    ensures forall i | 0 <= i < j :: Key(m, m.rows[i]) != Key(m, m.rows[j])
  {
    var F := FirstIndices(m.rows);
    var d := DropDuplicateRows(m);
    assert d.rows == Pick(m.rows, F);
    var dk := Keys(d, d.rows);
    var H := FirstIndices(dk);
    assert HeadPerKey(d).rows == Pick(d.rows, H);
    var q := H[p];
    j := F[q];
    forall i | 0 <= i < j ensures Key(m, m.rows[i]) != Key(m, m.rows[j]) {
      var q0 := EarlierFirst(m.rows, q, i);
      KeySameCols(d, m, d.rows[q0]);
      KeySameCols(d, m, d.rows[q]);
      assert dk[..q][q0] == dk[q0];
    }
  }
}
