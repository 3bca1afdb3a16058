/** The relational vocabulary every stage of the pipeline works on: cell values,
    typed column headers, positional rows and tables, the identity key, and the
    index helpers that pandas' column and row selections are built from. */
module Frame {

  /** One cell. pandas' NaN is Missing, an object cell holding text is Str and a
      float cell is Num (traffic counts and ratios are modelled over the reals). */
  datatype Value = Missing | Str(s: string) | Num(x: real)

  /** The dtype tag pandas keeps per column: float64 or object. It is read by the
      float test at wrangling.py:74 and the object test at wrangling.py:147. */
  datatype DType = Text | Float

  datatype Column = Column(name: string, dtype: DType)

  /** A row holds one cell per column, by position: until duplicated labels are
      dropped a frame may carry two columns with the same name. */
  type Row = seq<Value>

  datatype Table = Table(cols: seq<Column>, rows: seq<Row>)

  /** What the pipeline raises instead of returning a table. */
  datatype Error =
    | MissingYear(year: string)                  // KeyError on the year dictionary
    | MissingColumn(year: string, column: string) // KeyError / AttributeError on a frame
    | MissingKeepColumn(column: string)           // KeyError when selecting the retained columns
    | YearNotInteger                              // astype('int') on a NaN or text year

  datatype Result<T> = Ok(value: T) | Err(error: Error) {
    predicate IsFailure() { Err? }
    function PropagateFailure<U>(): Result<U> requires Err? { Err(error) }
    function Extract(): T requires Ok? { value }
  }

  datatype Option<T> = None | Some(value: T)

  // Canonical column names used by the pipeline and the dashboard.
  const StationId := "station_id"
  const RouteIdentifier := "route_identifier"
  const RouteNumber := "route_number"
  const Adt := "average_daily_traffic"
  const Year := "year"
  const RouteType := "route_type"
  const RouteTypeNumber := "route_type_number"
  const CountyName := "county_name"
  const Latitude := "latitude"
  const Longitude := "longitude"
  const RowNumber := "row_number"
  const Id2 := "id2"
  const PctChanged := "pct_changed"
  const Route := "route"

  function Names(cols: seq<Column>): seq<string>
  {
    seq(|cols|, i requires 0 <= i < |cols| => cols[i].name)
  }

  predicate Has(t: Table, c: string)
  {
    c in Names(t.cols)
  }

  /** Every row has exactly one cell per column (a DataFrame is rectangular). */
  predicate WellFormed(t: Table)
  {
    forall r | r in t.rows :: |r| == |t.cols|
  }

  predicate Distinct<K(==)>(s: seq<K>)
  {
    forall i, j | 0 <= i < j < |s| :: s[i] != s[j]
  }

  /** Position of the first occurrence of x in s. */
  function IndexOf<K(==)>(s: seq<K>, x: K): (i: nat)
    requires x in s
    ensures i < |s| && s[i] == x && x !in s[..i]
  {
    if s[0] == x then 0
    else
      var j := IndexOf(s[1..], x);
      assert s[..j + 1] == [s[0]] + s[1..][..j];
      j + 1
  }

  lemma IndexOfUnique<K>(s: seq<K>, x: K, k: nat)
    requires k < |s| && s[k] == x && x !in s[..k]
    ensures IndexOf(s, x) == k
  {
    var i := IndexOf(s, x);
    assert forall m | 0 <= m < k :: s[..k][m] == s[m];
  }

  lemma IndexOfAppend<K>(a: seq<K>, b: seq<K>, x: K)
    requires x in a + b
    ensures x in a ==> IndexOf(a + b, x) == IndexOf(a, x)
    ensures x !in a ==> x in b && IndexOf(a + b, x) == |a| + IndexOf(b, x)
  {
    if x in a {
      var i := IndexOf(a, x);
      assert (a + b)[..i] == a[..i];
      IndexOfUnique(a + b, x, i);
    } else {
      var k :| 0 <= k < |a + b| && (a + b)[k] == x;
      assert k >= |a| && b[k - |a|] == x;
      var j := IndexOf(b, x);
      assert (a + b)[..|a| + j] == a + b[..j];
      IndexOfUnique(a + b, x, |a| + j);
    }
  }

  /** The cell at position k, Missing past the end of a short row. */
  function Cell(r: Row, k: nat): Value
  {
    if k < |r| then r[k] else Missing
  }

  /** Column access by label: the first column carrying that name; an absent
      column reads as Missing (the pipeline checks presence wherever pandas
      would raise). */
  function Get(t: Table, r: Row, c: string): Value
  {
    if Has(t, c) then Cell(r, IndexOf(Names(t.cols), c)) else Missing
  }

  /** The identity of a monitoring point. */
  function Key(t: Table, r: Row): seq<Value>
  {
    [Get(t, r, StationId), Get(t, r, RouteIdentifier), Get(t, r, RouteNumber)]
  }

  function Keys(t: Table, rows: seq<Row>): seq<seq<Value>>
  {
    seq(|rows|, i requires 0 <= i < |rows| => Key(t, rows[i]))
  }

  predicate Increasing(idx: seq<nat>)
  {
    forall a, b | 0 <= a < b < |idx| :: idx[a] < idx[b]
  }

  function Pick<T>(s: seq<T>, idx: seq<nat>): seq<T>
    requires forall k | 0 <= k < |idx| :: idx[k] < |s|
  {
    seq(|idx|, k requires 0 <= k < |idx| => s[idx[k]])
  }

  /** Positions of the first occurrence of every distinct key, in order: the
      rows (or columns) that pandas' keep='first' de-duplication retains. */
  function FirstIndices<K(==)>(keys: seq<K>): (r: seq<nat>)
    ensures Increasing(r)
    ensures forall k | 0 <= k < |r| :: r[k] < |keys| && keys[r[k]] !in keys[..r[k]]
    ensures forall i | 0 <= i < |keys| && keys[i] !in keys[..i] :: i in r
  {
    if keys == [] then []
    else
      var n := |keys| - 1;
      var p := FirstIndices(keys[..n]);
      var r := if keys[n] in keys[..n] then p else p + [n];
      FirstIndicesStep(keys, keys[..n], p, r);
      r
  }

  /** The step of FirstIndices: the last key is retained exactly when it is new. */
  lemma FirstIndicesStep<K>(keys: seq<K>, pre: seq<K>, p: seq<nat>, r: seq<nat>)
    requires keys != [] && pre == keys[..|keys| - 1] && Increasing(p)
    requires forall k | 0 <= k < |p| :: p[k] < |pre| && pre[p[k]] !in pre[..p[k]]
    requires forall i | 0 <= i < |pre| && pre[i] !in pre[..i] :: i in p
    requires r == if keys[|pre|] in pre then p else p + [|pre|]
    ensures Increasing(r)
    ensures forall k | 0 <= k < |r| :: r[k] < |keys| && keys[r[k]] !in keys[..r[k]]
    ensures forall i | 0 <= i < |keys| && keys[i] !in keys[..i] :: i in r
  {
    PrefixOfPrefix(keys, pre);
    FirstIndicesStepKept(keys, pre, p, r);
    FirstIndicesStepCovers(keys, pre, p, r);
  }

  lemma FirstIndicesStepKept<K>(keys: seq<K>, pre: seq<K>, p: seq<nat>, r: seq<nat>)
    requires keys != [] && |pre| == |keys| - 1
    requires keys[..|pre|] == pre && forall i | 0 <= i < |pre| :: pre[i] == keys[i] && pre[..i] == keys[..i]
    requires forall k | 0 <= k < |p| :: p[k] < |pre| && pre[p[k]] !in pre[..p[k]]
    requires r == if keys[|pre|] in pre then p else p + [|pre|]
    ensures forall k | 0 <= k < |r| :: r[k] < |keys| && keys[r[k]] !in keys[..r[k]]
  {
    forall k | 0 <= k < |r| ensures r[k] < |keys| && keys[r[k]] !in keys[..r[k]] {
      if k < |p| {
        assert r[k] == p[k] && pre[p[k]] !in pre[..p[k]];
      } else {
        assert r[k] == |pre| && keys[|pre|] !in pre;
      }
    }
  }

  lemma FirstIndicesStepCovers<K>(keys: seq<K>, pre: seq<K>, p: seq<nat>, r: seq<nat>)
    requires keys != [] && |pre| == |keys| - 1
    requires keys[..|pre|] == pre && forall i | 0 <= i < |pre| :: pre[i] == keys[i] && pre[..i] == keys[..i]
    requires forall i | 0 <= i < |pre| && pre[i] !in pre[..i] :: i in p
    requires r == if keys[|pre|] in pre then p else p + [|pre|]
    ensures forall i | 0 <= i < |keys| && keys[i] !in keys[..i] :: i in r
  {
    forall i | 0 <= i < |keys| && keys[i] !in keys[..i] ensures i in r {
      if i < |pre| {
        assert pre[i] !in pre[..i];
        assert i in p;
      } else {
        assert r == p + [|pre|];
      }
    }
  }

  /** A prefix of keys agrees with keys, up to its own length. */
  lemma PrefixOfPrefix<K>(keys: seq<K>, pre: seq<K>)
    requires keys != [] && pre == keys[..|keys| - 1]
    ensures keys[..|pre|] == pre
    ensures forall i | 0 <= i < |pre| :: pre[i] == keys[i] && pre[..i] == keys[..i]
  {
  }

  /** The retained keys are pairwise different. */
  lemma FirstIndicesDistinct<K>(keys: seq<K>)
    ensures Distinct(Pick(keys, FirstIndices(keys)))
  {
    var r := FirstIndices(keys);
    forall a, b | 0 <= a < b < |r| ensures keys[r[a]] != keys[r[b]] {
      assert keys[..r[b]][r[a]] == keys[r[a]];
    }
  }

  /** Every key of the input is the key of some retained position. */
  lemma FirstIndicesCover<K>(keys: seq<K>, i: nat)
    requires i < |keys|
    ensures keys[i] in Pick(keys, FirstIndices(keys))
  {
    var r := FirstIndices(keys);
    var j := IndexOf(keys, keys[i]);
    assert j in r;
    var k := IndexOf(r, j);
    assert Pick(keys, r)[k] == keys[i];
  }

  /** Positions whose key differs from x, in order: what dropping the label x keeps. */
  function IndicesExcept<K(==)>(keys: seq<K>, x: K): (r: seq<nat>)
    ensures Increasing(r)
    ensures forall k | 0 <= k < |r| :: r[k] < |keys| && keys[r[k]] != x
    ensures forall i | 0 <= i < |keys| && keys[i] != x :: i in r
  {
    if keys == [] then []
    else
      var n := |keys| - 1;
      var p := IndicesExcept(keys[..n], x);
      if keys[n] == x then p else p + [n]
  }

  /** The columns at positions idx, with every row cut down to the same positions. */
  function Select(t: Table, idx: seq<nat>): (r: Table)
    requires forall k | 0 <= k < |idx| :: idx[k] < |t.cols|
    ensures WellFormed(r) && |r.rows| == |t.rows|
  {
    Table(Pick(t.cols, idx),
          seq(|t.rows|, i requires 0 <= i < |t.rows| =>
            seq(|idx|, k requires 0 <= k < |idx| => Cell(t.rows[i], idx[k]))))
  }

  /** Selecting columns keeps what a label reads as long as the first column of
      that label is among the selected ones and no earlier selected column repeats it. */
  lemma SelectGet(t: Table, idx: seq<nat>, i: nat, c: string)
    requires forall k | 0 <= k < |idx| :: idx[k] < |t.cols|
    requires Increasing(idx) && i < |t.rows|
    requires Has(t, c) ==> IndexOf(Names(t.cols), c) in idx
    ensures Get(Select(t, idx), Select(t, idx).rows[i], c) == Get(t, t.rows[i], c)
  {
    var s := Select(t, idx);
    var names, picked := Names(t.cols), Names(s.cols);
    if Has(t, c) {
      var j := IndexOf(names, c);
      var k := IndexOf(idx, j);
      assert picked[k] == c;
      forall k' | 0 <= k' < k ensures picked[k'] != c {
        assert names[..j][idx[k']] == names[idx[k']];
      }
      IndexOfUnique(picked, c, k);
    } else {
      forall k | 0 <= k < |picked| ensures picked[k] != c {
        assert picked[k] == names[idx[k]];
      }
    }
  }

  /** r is s read at the increasing positions idx: a subsequence in s's order. */
  ghost predicate SubseqAt<T>(s: seq<T>, r: seq<T>, idx: seq<nat>)
  {
    && Increasing(idx) && |idx| == |r|
    && forall k | 0 <= k < |idx| :: idx[k] < |s| && r[k] == s[idx[k]]
  }

  /** The rows satisfying p, in their original order. */
  function Filter<T(!new)>(s: seq<T>, p: T -> bool): (r: seq<T>)
    ensures |r| <= |s|
    ensures forall x :: x in r <==> x in s && p(x)
  {
    if s == [] then [] else (if p(s[0]) then [s[0]] else []) + Filter(s[1..], p)
  }

  /** Filter keeps exactly the positions whose element satisfies p, in order. */
  lemma {:induction false} FilterOrder<T(!new)>(s: seq<T>, p: T -> bool) returns (idx: seq<nat>)
    ensures SubseqAt(s, Filter(s, p), idx)
    ensures forall i | 0 <= i < |s| :: i in idx <==> p(s[i])
  {
    if s == [] {
      idx := [];
    } else {
      var tail := FilterOrder(s[1..], p);
      var shifted := Shift(tail);
      ShiftSubseq(s, Filter(s[1..], p), tail);
      ShiftPositions(s, p, tail);
      if p(s[0]) {
        idx := [0] + shifted;
        assert Filter(s, p) == [s[0]] + Filter(s[1..], p);
        ConsSubseq(s, Filter(s[1..], p), shifted);
      } else {
        idx := shifted;
        assert Filter(s, p) == Filter(s[1..], p);
      }
      HeadPositions(s, p, shifted, idx);
    }
  }

  function Shift(idx: seq<nat>): (r: seq<nat>)
    ensures |r| == |idx| && forall k | 0 <= k < |idx| :: r[k] == idx[k] + 1
  {
    seq(|idx|, k requires 0 <= k < |idx| => idx[k] + 1)
  }

  lemma ShiftSubseq<T>(s: seq<T>, rt: seq<T>, tail: seq<nat>)
    requires s != [] && SubseqAt(s[1..], rt, tail)
    ensures SubseqAt(s, rt, Shift(tail))
  {
    forall k | 0 <= k < |tail| ensures Shift(tail)[k] < |s| && rt[k] == s[Shift(tail)[k]] {
      assert rt[k] == s[1..][tail[k]];
    }
  }

  lemma ShiftPositions<T>(s: seq<T>, p: T -> bool, tail: seq<nat>)
    requires s != [] && forall i | 0 <= i < |s[1..]| :: i in tail <==> p(s[1..][i])
    ensures forall i | 1 <= i < |s| :: i in Shift(tail) <==> p(s[i])
  {
    var shifted := Shift(tail);
    forall i | 1 <= i < |s| ensures i in shifted <==> p(s[i]) {
      assert s[1..][i - 1] == s[i];
      if i - 1 in tail {
        var k :| 0 <= k < |tail| && tail[k] == i - 1;
        assert shifted[k] == i;
      }
      if i in shifted {
        var k :| 0 <= k < |shifted| && shifted[k] == i;
        assert tail[k] == i - 1;
      }
    }
  }

  lemma HeadPositions<T>(s: seq<T>, p: T -> bool, shifted: seq<nat>, idx: seq<nat>)
    requires s != [] && forall k | 0 <= k < |shifted| :: shifted[k] > 0
    requires forall i | 1 <= i < |s| :: i in shifted <==> p(s[i])
    requires idx == if p(s[0]) then [0] + shifted else shifted
    ensures forall i | 0 <= i < |s| :: i in idx <==> p(s[i])
  {
    forall i | 0 <= i < |s| ensures i in idx <==> p(s[i]) {
      if i > 0 {
        assert i in idx <==> i in shifted;
      }
    }
  }

  lemma ConsSubseq<T>(s: seq<T>, rt: seq<T>, shifted: seq<nat>)
    requires s != [] && SubseqAt(s, rt, shifted) && forall k | 0 <= k < |shifted| :: shifted[k] > 0
    ensures SubseqAt(s, [s[0]] + rt, [0] + shifted)
  {
  }

  /** Replaces the cell of column c (its first occurrence) by f of it, in every row;
      a frame without c is returned as it is. */
  function MapColumn(t: Table, c: string, f: Value -> Value): (r: Table)
    ensures r.cols == t.cols && |r.rows| == |t.rows|
    ensures WellFormed(t) ==> WellFormed(r)
  {
    if !Has(t, c) then t
    else
      var k := IndexOf(Names(t.cols), c);
      Table(t.cols, seq(|t.rows|, i requires 0 <= i < |t.rows| =>
        if k < |t.rows[i]| then t.rows[i][k := f(t.rows[i][k])] else t.rows[i]))
  }

  lemma MapColumnGet(t: Table, c: string, f: Value -> Value, i: nat, d: string)
    requires i < |t.rows| && WellFormed(t)
    ensures Get(MapColumn(t, c, f), MapColumn(t, c, f).rows[i], d)
         == if d == c && Has(t, c) then f(Get(t, t.rows[i], c)) else Get(t, t.rows[i], d)
  {
    if Has(t, c) && Has(t, d) && d != c {
      assert IndexOf(Names(t.cols), d) != IndexOf(Names(t.cols), c);
    }
  }

  /** Overwrites column c (its first occurrence) with vals, row by row. */
  function SetColumn(t: Table, c: string, vals: seq<Value>): (r: Table)
    requires |vals| == |t.rows|
    ensures r.cols == t.cols && |r.rows| == |t.rows|
    ensures WellFormed(t) ==> WellFormed(r)
  {
    if !Has(t, c) then t
    else
      var k := IndexOf(Names(t.cols), c);
      Table(t.cols, seq(|t.rows|, i requires 0 <= i < |t.rows| =>
        if k < |t.rows[i]| then t.rows[i][k := vals[i]] else t.rows[i]))
  }

  lemma SetColumnGet(t: Table, c: string, vals: seq<Value>, i: nat, d: string)
    requires |vals| == |t.rows| && i < |t.rows| && WellFormed(t)
    ensures Get(SetColumn(t, c, vals), SetColumn(t, c, vals).rows[i], d)
         == if d == c && Has(t, c) then vals[i] else Get(t, t.rows[i], d)
  {
    if Has(t, c) && Has(t, d) && d != c {
      assert IndexOf(Names(t.cols), d) != IndexOf(Names(t.cols), c);
    }
  }

  /** Appends a column holding vals. */
  function AddColumn(t: Table, col: Column, vals: seq<Value>): (r: Table)
    requires |vals| == |t.rows|
    ensures |r.rows| == |t.rows| && Names(r.cols) == Names(t.cols) + [col.name]
    ensures WellFormed(t) ==> WellFormed(r)
  {
    Table(t.cols + [col], seq(|t.rows|, i requires 0 <= i < |t.rows| => t.rows[i] + [vals[i]]))
  }

  lemma AddColumnGet(t: Table, col: Column, vals: seq<Value>, i: nat, d: string)
    requires |vals| == |t.rows| && i < |t.rows| && WellFormed(t)
    ensures Get(AddColumn(t, col, vals), AddColumn(t, col, vals).rows[i], d)
         == if Has(t, d) then Get(t, t.rows[i], d) else if d == col.name then vals[i] else Missing
  {
    var a := AddColumn(t, col, vals);
    if d in Names(a.cols) {
      IndexOfAppend(Names(t.cols), [col.name], d);
    }
  }

  /** df[name] = vals: overwrites the column when the frame has it, appends it otherwise. */
  function Assign(t: Table, col: Column, vals: seq<Value>): (r: Table)
    requires |vals| == |t.rows|
    ensures |r.rows| == |t.rows|
    ensures forall d :: Has(r, d) <==> Has(t, d) || d == col.name
    ensures WellFormed(t) ==> WellFormed(r)
  {
    if Has(t, col.name) then SetColumn(t, col.name, vals) else AddColumn(t, col, vals)
  }

  lemma AssignGet(t: Table, col: Column, vals: seq<Value>, i: nat, d: string)
    requires |vals| == |t.rows| && i < |t.rows| && WellFormed(t)
    ensures Get(Assign(t, col, vals), Assign(t, col, vals).rows[i], d)
         == if d == col.name then vals[i] else Get(t, t.rows[i], d)
  {
    if Has(t, col.name) {
      SetColumnGet(t, col.name, vals, i, d);
    } else {
      AddColumnGet(t, col, vals, i, d);
    }
  }
}
