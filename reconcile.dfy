/** The cross-year reconciliation of wrangling.py:119-142: the 2018 frame is the
    reference for every static attribute; each other year gains the attributes it
    lacks and takes 2018's non-missing values where its identity occurs in 2018,
    as pandas' DataFrame.update does; only afterwards does 2018 lose its rows
    without traffic. */
module Reconcile {
  import opened Frame
  import opened Years

  const Reference := "2018"

  predicate IsKeyColumn(c: string)
  {
    c == StationId || c == RouteIdentifier || c == RouteNumber
  }

  /** The columns of update_df (lines 123-127): every column of the reference
      frame except the identity, the traffic and the year. */
  function StaticCols(s: Table): (r: seq<string>)
    ensures forall c :: c in r <==> Has(s, c) && !IsKeyColumn(c) && c != Adt && c != Year
  {
    Filter(Names(s.cols), c => !IsKeyColumn(c) && c != Adt && c != Year)
  }

  /** Lines 132-134: each listed column the frame lacks is appended, all NaN. */
  function AddMissing(t: Table, cols: seq<string>): (r: Table)
    ensures |r.rows| == |t.rows|
    ensures forall d :: Has(r, d) <==> Has(t, d) || d in cols
    ensures WellFormed(t) ==> WellFormed(r)
    decreases |cols|
  {
    if cols == [] then t
    else
      var n := |cols| - 1;
      var a := AddMissing(t, cols[..n]);
      assert forall d :: d in cols <==> d in cols[..n] || d == cols[n];
      if Has(a, cols[n]) then a
      else AddColumn(a, Column(cols[n], Float), seq(|a.rows|, _ => Missing))
  }

  /** Adding NaN columns changes what no label reads. */
  lemma {:induction false} AddMissingGet(t: Table, cols: seq<string>, i: nat, d: string)
    requires WellFormed(t) && i < |t.rows|
    ensures Get(AddMissing(t, cols), AddMissing(t, cols).rows[i], d) == Get(t, t.rows[i], d)
    decreases |cols|
  {
    if cols != [] {
      var n := |cols| - 1;
      var a := AddMissing(t, cols[..n]);
      AddMissingGet(t, cols[..n], i, d);
      if !Has(a, cols[n]) {
        AddColumnGet(a, Column(cols[n], Float), seq(|a.rows|, _ => Missing), i, d);
      }
    }
  }

  /** The reference row carrying identity k, if any (update_df's index is unique
      once every year has been collapsed). */
  function Lookup(s: Table, rows: seq<Row>, k: seq<Value>): (r: Option<Row>)
    ensures r.Some? <==> exists x | x in rows :: Key(s, x) == k
    ensures r.Some? ==> r.value in rows && Key(s, r.value) == k
  {
    if rows == [] then None
    else if Key(s, rows[0]) == k then Some(rows[0])
    else
      var r := Lookup(s, rows[1..], k);
      assert forall x | x in rows :: x == rows[0] || x in rows[1..];
      r
  }

  /** df.update(update_df, overwrite=True) on one row: where the row's identity
      occurs in the reference, every static column takes the reference value,
      unless that value is NaN. */
  function UpdateRow(t: Table, s: Table, cols: seq<string>, row: Row): (r: Row)
    ensures |r| == |row|
  {
    match Lookup(s, s.rows, Key(t, row))
    case None => row
    case Some(src) =>
      seq(|row|, k requires 0 <= k < |row| =>
        if k < |t.cols| && t.cols[k].name in cols && Get(s, src, t.cols[k].name) != Missing
        then Get(s, src, t.cols[k].name) else row[k])
  }

  /** Lines 132-138 for one non-reference year. */
  function ReconcileYear(t: Table, s: Table, cols: seq<string>): (r: Table)
    ensures WellFormed(t) ==> WellFormed(r)
  {
    var a := AddMissing(t, cols);
    Table(a.cols, seq(|a.rows|, i requires 0 <= i < |a.rows| => UpdateRow(a, s, cols, a.rows[i])))
  }

  /** The value a reconciled row reads for column d: the reference value when the
      identity is found in the reference, d is static there and the value is not
      NaN; otherwise the row's own (NaN for a column the year lacked). */
  function Reconciled(t: Table, s: Table, cols: seq<string>, row: Row, d: string): Value
  {
    match Lookup(s, s.rows, Key(t, row))
    case Some(src) => if d in cols && Get(s, src, d) != Missing then Get(s, src, d) else Get(t, row, d)
    case None => Get(t, row, d)
  }

  /** What update does to one year: the rows stay in order, the static columns are
      added, and each cell is the reference value exactly where that is found and
      not NaN; identity, traffic and year are never written. */
  lemma ReconcileYearSpec(t: Table, s: Table, i: nat, d: string)
    requires WellFormed(t) && i < |t.rows|
    ensures |ReconcileYear(t, s, StaticCols(s)).rows| == |t.rows|
    ensures Has(ReconcileYear(t, s, StaticCols(s)), d) <==> Has(t, d) || d in StaticCols(s)
    ensures Get(ReconcileYear(t, s, StaticCols(s)), ReconcileYear(t, s, StaticCols(s)).rows[i], d)
         == Reconciled(t, s, StaticCols(s), t.rows[i], d)
    ensures d == Adt || d == Year || IsKeyColumn(d) ==>
      Get(ReconcileYear(t, s, StaticCols(s)), ReconcileYear(t, s, StaticCols(s)).rows[i], d) == Get(t, t.rows[i], d)
  {
    var cols := StaticCols(s);
    var a := AddMissing(t, cols);
    var r := ReconcileYear(t, s, cols);
    var row := a.rows[i];
    AddMissingGet(t, cols, i, d);
    AddMissingGet(t, cols, i, StationId);
    AddMissingGet(t, cols, i, RouteIdentifier);
    AddMissingGet(t, cols, i, RouteNumber);
    assert Key(a, row) == Key(t, t.rows[i]);
    assert r.cols == a.cols && r.rows[i] == UpdateRow(a, s, cols, row);
    UpdateRowGet(a, s, cols, row, d);
  }

  /** One updated cell, read by label, is the reconciled value. */
  lemma UpdateRowGet(a: Table, s: Table, cols: seq<string>, row: Row, d: string)
    requires |row| == |a.cols| && forall c | c in cols :: Has(a, c)
    ensures Get(a, UpdateRow(a, s, cols, row), d) == Reconciled(a, s, cols, row, d)
  {
    if Has(a, d) {
      var k := IndexOf(Names(a.cols), d);
      assert a.cols[k].name == d;
    }
  }

  /** The loop of lines 129-138: the reference year is left as it is. */
  function ReconcileFrom(s: Table): (string, Table) -> Table
  {
    (y, t) => if y == Reference then t else ReconcileYear(t, s, StaticCols(s))
  }

  /** The reconciliation stage over the whole dictionary: the reference year and
      its year column must exist (lines 120 and 125); every other year is updated
      from the reference as it stood before its rows without traffic are dropped. */
  function ReconcileYears(dfs: Frames): (r: Result<Frames>)
    ensures r.Err? <==> Reference !in dfs || !Has(dfs[Reference], Year)
    ensures r.Ok? ==> r.value.Keys == dfs.Keys && r.value[Reference] == dfs[Reference]
    ensures r.Ok? ==> forall y | y in dfs && y != Reference
                        :: r.value[y] == ReconcileYear(dfs[y], dfs[Reference], StaticCols(dfs[Reference]))
  {
    if Reference !in dfs then Err(MissingYear(Reference))
    else if !Has(dfs[Reference], Year) then Err(MissingColumn(Reference, Year))
    else
      var s := dfs[Reference];
      Ok(MapYears(dfs, ReconcileFrom(s)))
  }

  /** dropna(subset=['average_daily_traffic']) (line 142). */
  function DropMissingAdt(t: Table): (r: Table)
    ensures r.cols == t.cols
    ensures forall x :: x in r.rows <==> x in t.rows && Get(t, x, Adt) != Missing
  {
    Table(t.cols, Filter(t.rows, x => Get(t, x, Adt) != Missing))
  }

  /** dropna keeps the surviving rows in their input order: they are exactly the
      rows at the positions whose traffic is present, read in increasing order. */
  lemma DropMissingAdtOrder(t: Table) returns (idx: seq<nat>)
    ensures SubseqAt(t.rows, DropMissingAdt(t).rows, idx)
    ensures forall i | 0 <= i < |t.rows| :: i in idx <==> Get(t, t.rows[i], Adt) != Missing
  {
    idx := FilterOrder(t.rows, x => Get(t, x, Adt) != Missing);
  }

  /** Line 142: only the reference year loses rows. */
  function DropReferenceMissingAdt(dfs: Frames): (r: Frames)
    requires Reference in dfs
    ensures r.Keys == dfs.Keys
    ensures forall y | y in dfs && y != Reference :: r[y] == dfs[y]
    ensures r[Reference] == DropMissingAdt(dfs[Reference])
  {
    dfs[Reference := DropMissingAdt(dfs[Reference])]
  }

  /** A reference row without traffic is gone after line 142, but it has already
      served as the update source: a row of another year with the same identity
      still carries its non-missing static values. */
  lemma DroppedReferenceRowStillPropagates(dfs: Frames, y: string, i: nat, src: Row, d: string)
    requires Reference in dfs && Has(dfs[Reference], Year) && y in dfs && y != Reference
    requires WellFormed(dfs[y]) && i < |dfs[y].rows|
    requires Lookup(dfs[Reference], dfs[Reference].rows, Key(dfs[y], dfs[y].rows[i])) == Some(src)
    requires Get(dfs[Reference], src, Adt) == Missing
    requires d in StaticCols(dfs[Reference]) && Get(dfs[Reference], src, d) != Missing
    ensures src !in DropReferenceMissingAdt(ReconcileYears(dfs).value)[Reference].rows
    ensures var t := DropReferenceMissingAdt(ReconcileYears(dfs).value)[y];
            Get(t, t.rows[i], d) == Get(dfs[Reference], src, d)
  {
    var s := dfs[Reference];
    var r := ReconcileYears(dfs).value;
    assert r[y] == ReconcileYear(dfs[y], s, StaticCols(s));
    ReconcileYearSpec(dfs[y], s, i, d);
  }
}
