/** The sort of wrangling.py:181 and the grouped percent change of lines 183-186. */
module Change {
  import opened Frame
  import opened Ordering

  /** What line 181 sorts by: the identity, then the year. */
  function SortKey(t: Table, r: Row): (k: seq<Value>)
    ensures |k| == 4 && k[..3] == Key(t, r) && k[3] == Get(t, r, Year)
  {
    Key(t, r) + [Get(t, r, Year)]
  }

  /** Rows in ascending sort-key order (NaN last in every component). */
  predicate SortedBy(t: Table, rows: seq<Row>)
  {
    forall a, b | 0 <= a < b < |rows| :: !KeyLt(SortKey(t, rows[b]), SortKey(t, rows[a]))
  }

  /** Places x after every row that does not sort after it, so rows with equal
      keys keep their order. */
  function Insert(t: Table, x: Row, rows: seq<Row>): (r: seq<Row>)
    ensures multiset(r) == multiset(rows) + multiset{x}
  {
    if rows == [] then [x]
    else if KeyLt(SortKey(t, x), SortKey(t, rows[0])) then [x] + rows
    else
      var r := [rows[0]] + Insert(t, x, rows[1..]);
      assert rows == [rows[0]] + rows[1..];
      r
  }

  lemma {:induction false} InsertSorted(t: Table, x: Row, rows: seq<Row>)
    requires SortedBy(t, rows)
    ensures SortedBy(t, Insert(t, x, rows))
  {
    if rows == [] {
    } else if KeyLt(SortKey(t, x), SortKey(t, rows[0])) {
      var r := [x] + rows;
      forall b | 0 < b < |r| ensures !KeyLt(SortKey(t, r[b]), SortKey(t, x)) {
        var y := r[b];
        KeyLtIrreflexive(SortKey(t, x));
        if y != rows[0] {
          assert !KeyLt(SortKey(t, y), SortKey(t, rows[0]));
          if KeyLt(SortKey(t, y), SortKey(t, x)) {
            KeyLtTransitive(SortKey(t, y), SortKey(t, x), SortKey(t, rows[0]));
          }
        } else {
          if KeyLt(SortKey(t, y), SortKey(t, x)) {
            KeyLtTransitive(SortKey(t, y), SortKey(t, x), SortKey(t, y));
            KeyLtIrreflexive(SortKey(t, y));
          }
        }
      }
    } else {
      var tail := Insert(t, x, rows[1..]);
      InsertSorted(t, x, rows[1..]);
      forall b | 0 <= b < |tail| ensures !KeyLt(SortKey(t, tail[b]), SortKey(t, rows[0])) {
        var y := tail[b];
        assert y in multiset(tail);
        if y != x {
          assert y in multiset(rows[1..]);
          var k :| 0 <= k < |rows[1..]| && rows[1..][k] == y;
          assert rows[k + 1] == y;
        }
      }
    }
  }

  /** sort_values on the rows: an insertion sort, which is stable as pandas'
      multi-column sort is. */
  function SortRows(t: Table, rows: seq<Row>): (r: seq<Row>)
    ensures multiset(r) == multiset(rows)
  {
    if rows == [] then []
    else
      var n := |rows| - 1;
      var r := Insert(t, rows[n], SortRows(t, rows[..n]));
      assert rows == rows[..n] + [rows[n]];
      r
  }

  lemma {:induction false} SortRowsSorted(t: Table, rows: seq<Row>)
    ensures SortedBy(t, SortRows(t, rows))
  {
    if rows != [] {
      var n := |rows| - 1;
      SortRowsSorted(t, rows[..n]);
      InsertSorted(t, rows[n], SortRows(t, rows[..n]));
    }
  }

  /** Line 181: the same rows, as a multiset, in ascending order of identity and year. */
  function Sort(t: Table): (r: Table)
    ensures r.cols == t.cols && multiset(r.rows) == multiset(t.rows)
    ensures WellFormed(t) ==> WellFormed(r)
  {
    var r := Table(t.cols, SortRows(t, t.rows));
    assert forall x | x in r.rows :: x in multiset(t.rows);
    r
  }

  lemma SortSpec(t: Table)
    ensures SortedBy(Sort(t), Sort(t).rows)
    ensures multiset(Sort(t).rows) == multiset(t.rows)
  {
    SortRowsSorted(t, t.rows);
  }

  /** The last row before position j carrying the identity keys[i]. */
  function PrevInGroup(keys: seq<seq<Value>>, i: nat, j: nat): (p: Option<nat>)
    requires i < |keys| && j <= i
    ensures p.Some? ==> p.value < j && keys[p.value] == keys[i]
                        && forall m | p.value < m < j :: keys[m] != keys[i]
    ensures p.None? ==> forall m | 0 <= m < j :: keys[m] != keys[i]
  {
    if j == 0 then None
    else if keys[j - 1] == keys[i] then Some(j - 1)
    else PrevInGroup(keys, i, j - 1)
  }

  /** (cur - prev) / prev, which is what cur / prev - 1 is; NaN when either is NaN,
      and NaN in place of pandas' infinity when prev is 0. */
  function Pct(prev: Value, cur: Value): (r: Value)
    ensures r != Missing <==> prev.Num? && cur.Num? && prev.x != 0.0
    ensures r != Missing ==> prev.Num? && cur.Num? && r.Num? && prev.x * (1.0 + r.x) == cur.x
  {
    if prev.Num? && cur.Num? && prev.x != 0.0 then Num((cur.x - prev.x) / prev.x) else Missing
  }

  /** The value of the nearest row before position j that carries identity k and
      has a value, NaN if there is none. */
  function LastInGroup(keys: seq<seq<Value>>, vals: seq<Value>, k: seq<Value>, j: nat): (v: Value)
    requires |keys| == |vals| && j <= |vals|
    ensures v != Missing <==> exists m | 0 <= m < j :: keys[m] == k && vals[m] != Missing
    ensures v != Missing ==> exists m | 0 <= m < j :: keys[m] == k && vals[m] == v
                                 && forall m' | m < m' < j :: !(keys[m'] == k && vals[m'] != Missing)
  {
    if j == 0 then Missing
    else if keys[j - 1] == k && vals[j - 1] != Missing then vals[j - 1]
    else LastInGroup(keys, vals, k, j - 1)
  }

  function AdtColumn(t: Table): (vals: seq<Value>)
    ensures |vals| == |t.rows|
  {
    seq(|t.rows|, i requires 0 <= i < |t.rows| => Get(t, t.rows[i], Adt))
  }

  /** groupby(key).average_daily_traffic.ffill() at row i, which pct_change's
      default fill_method applies first: the traffic of the nearest row at or
      before i of i's identity that has one. */
  function Padded(t: Table, i: nat): Value
    requires i < |t.rows|
  {
    LastInGroup(Keys(t, t.rows), AdtColumn(t), Key(t, t.rows[i]), i + 1)
  }

  /** groupby(key).average_daily_traffic.pct_change() at row i: the padded traffic
      against the padded traffic of the previous row of the identity. */
  function PctValue(t: Table, i: nat): Value
    requires i < |t.rows|
  {
    match PrevInGroup(Keys(t, t.rows), i, i)
    case None => Missing
    case Some(j) => Pct(Padded(t, j), Padded(t, i))
  }

  /** Lines 183-186. */
  function AddPct(t: Table): (r: Table)
    ensures |r.rows| == |t.rows| && forall d :: Has(r, d) <==> Has(t, d) || d == PctChanged
    ensures WellFormed(t) ==> WellFormed(r)
  {
    Assign(t, Column(PctChanged, Float), seq(|t.rows|, i requires 0 <= i < |t.rows| => PctValue(t, i)))
  }

  /** In a sorted frame the rows of one identity are adjacent: the previous row of
      the same identity, if any, is the row just above. */
  lemma SortedPrevIsAbove(t: Table, i: nat)
    requires SortedBy(t, t.rows) && i < |t.rows|
    ensures PrevInGroup(Keys(t, t.rows), i, i)
         == if i > 0 && Key(t, t.rows[i - 1]) == Key(t, t.rows[i]) then Some(i - 1) else None
  {
    var keys := Keys(t, t.rows);
    if i > 0 && keys[i - 1] != keys[i] {
      var p := PrevInGroup(keys, i, i);
      if p.Some? {
        var m := p.value;
        var ski, skp, skm := SortKey(t, t.rows[i]), SortKey(t, t.rows[i - 1]), SortKey(t, t.rows[m]);
        KeyLtTotal(keys[i - 1], keys[i]);
        if KeyLt(keys[i], keys[i - 1]) {
          KeyLtPrefix(ski, skp, 3);
        } else {
          assert KeyLt(skp[..3], skm[..3]) by {
            assert keys[m] == keys[i];
          }
          KeyLtPrefix(skp, skm, 3);
        }
      }
    }
  }

  /** pct_changed after the sort: NaN on the first row of each identity, otherwise
      the relative change from the row above, both traffic values padded. */
  lemma AddPctSpec(t: Table, i: nat, d: string)
    requires WellFormed(t) && SortedBy(t, t.rows) && i < |t.rows|
    ensures Get(AddPct(t), AddPct(t).rows[i], PctChanged)
         == if i > 0 && Key(t, t.rows[i - 1]) == Key(t, t.rows[i])
            then Pct(Padded(t, i - 1), Padded(t, i))
            else Missing
    ensures d != PctChanged ==> Get(AddPct(t), AddPct(t).rows[i], d) == Get(t, t.rows[i], d)
  {
    var vals := seq(|t.rows|, j requires 0 <= j < |t.rows| => PctValue(t, j));
    AssignGet(t, Column(PctChanged, Float), vals, i, d);
    AddPctGet(t, i);
    PctValueSorted(t, i);
  }

  lemma AddPctGet(t: Table, i: nat)
    requires WellFormed(t) && i < |t.rows|
    ensures Get(AddPct(t), AddPct(t).rows[i], PctChanged) == PctValue(t, i)
  {
    var vals := seq(|t.rows|, j requires 0 <= j < |t.rows| => PctValue(t, j));
    AssignGet(t, Column(PctChanged, Float), vals, i, PctChanged);
  }

  lemma PctValueSorted(t: Table, i: nat)
    requires SortedBy(t, t.rows) && i < |t.rows|
    ensures PctValue(t, i)
         == if i > 0 && Key(t, t.rows[i - 1]) == Key(t, t.rows[i])
            then Pct(Padded(t, i - 1), Padded(t, i))
            else Missing
  {
    SortedPrevIsAbove(t, i);
  }

  /** In a sorted frame the padded traffic is the row's own when present, otherwise
      the padded traffic of the row above when that row has the same identity, and
      NaN on the first row of an identity. */
  lemma SortedPadded(t: Table, i: nat)
    requires SortedBy(t, t.rows) && i < |t.rows|
    ensures Padded(t, i)
         == if Get(t, t.rows[i], Adt) != Missing then Get(t, t.rows[i], Adt)
            else if i > 0 && Key(t, t.rows[i - 1]) == Key(t, t.rows[i]) then Padded(t, i - 1)
            else Missing
  {
    var keys, vals := Keys(t, t.rows), AdtColumn(t);
    assert keys[i] == Key(t, t.rows[i]) && vals[i] == Get(t, t.rows[i], Adt);
    if vals[i] == Missing {
      SortedPrevIsAbove(t, i);
      if i > 0 && keys[i - 1] == keys[i] {
        assert Padded(t, i - 1) == LastInGroup(keys, vals, keys[i], i);
      } else {
        assert forall m | 0 <= m < i :: keys[m] != keys[i];
      }
    }
  }

  /** Within an identity whose traffic is present on both rows, pct_changed is the
      plain relative change of the traffic. */
  lemma PctOfPresentTraffic(t: Table, i: nat)
    requires WellFormed(t) && SortedBy(t, t.rows) && 0 < i < |t.rows|
    requires Key(t, t.rows[i - 1]) == Key(t, t.rows[i])
    requires Get(t, t.rows[i - 1], Adt) != Missing && Get(t, t.rows[i], Adt) != Missing
    ensures Get(AddPct(t), AddPct(t).rows[i], PctChanged) == Pct(Get(t, t.rows[i - 1], Adt), Get(t, t.rows[i], Adt))
  {
    assert Get(AddPct(t), AddPct(t).rows[i], PctChanged) == PctValue(t, i) by {
      AddPctGet(t, i);
    }
    assert PctValue(t, i) == Pct(Padded(t, i - 1), Padded(t, i)) by {
      PctValueSorted(t, i);
    }
    assert Padded(t, i - 1) == Get(t, t.rows[i - 1], Adt) by {
      PaddedOwn(t, i - 1);
    }
    assert Padded(t, i) == Get(t, t.rows[i], Adt) by {
      PaddedOwn(t, i);
    }
  }

  /** A row that carries traffic pads to its own traffic. */
  lemma PaddedOwn(t: Table, i: nat)
    requires i < |t.rows| && Get(t, t.rows[i], Adt) != Missing
    ensures Padded(t, i) == Get(t, t.rows[i], Adt)
  {
    var keys, vals := Keys(t, t.rows), AdtColumn(t);
    assert keys[i] == Key(t, t.rows[i]) && vals[i] == Get(t, t.rows[i], Adt);
  }

  /** A row whose traffic is NaN, inside an identity with an earlier non-zero
      traffic, gets a change of 0: the pad copies the previous traffic onto it. */
  lemma PctOfGapIsZero(t: Table, i: nat)
    requires WellFormed(t) && SortedBy(t, t.rows) && 0 < i < |t.rows|
    requires Key(t, t.rows[i - 1]) == Key(t, t.rows[i]) && Get(t, t.rows[i], Adt) == Missing
    requires Padded(t, i - 1).Num? && Padded(t, i - 1).x != 0.0
    ensures Get(AddPct(t), AddPct(t).rows[i], PctChanged) == Num(0.0)
  {
    AddPctGet(t, i);
    PctValueSorted(t, i);
    SortedPadded(t, i);
    var p := Padded(t, i - 1);
    assert Padded(t, i) == p;
    assert (p.x - p.x) / p.x == 0.0;
  }

  /** Adding pct_changed leaves the identity and year of every row alone, so the
      frame stays sorted. */
  lemma AddPctKeepsSorted(t: Table)
    requires WellFormed(t) && SortedBy(t, t.rows)
    ensures SortedBy(AddPct(t), AddPct(t).rows)
  {
    var r := AddPct(t);
    forall i | 0 <= i < |t.rows| ensures SortKey(r, r.rows[i]) == SortKey(t, t.rows[i]) {
      AddPctSpec(t, i, StationId);
      AddPctSpec(t, i, RouteIdentifier);
      AddPctSpec(t, i, RouteNumber);
      AddPctSpec(t, i, Year);
    }
  }
}
