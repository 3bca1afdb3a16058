/** The dictionary of per-year frames that create_big_df (wrangling.py:33-153)
    works on, and the one pattern every per-year stage follows: visit the years in
    the dictionary's order, raise on the first year that fails the stage's check,
    otherwise replace every frame by the stage's transformation of it. */
module Years {
  import opened Frame

  /** Year name to that year's frame. */
  type Frames = map<string, Table>

  /** The dictionary's iteration order: every year exactly once, and only the
      years present. */
  predicate YearOrder(years: seq<string>, dfs: Frames)
  {
    Distinct(years) && (forall y | y in dfs :: y in years) && (forall y | y in years :: y in dfs)
  }

  /** Every frame replaced by f applied to its year and frame. */
  function MapYears(dfs: Frames, f: (string, Table) -> Table): (r: Frames)
    ensures r.Keys == dfs.Keys
  {
    map y | y in dfs :: f(y, dfs[y])
  }

  /** The error raised while visiting the years in order: that of the first year
      whose check fails, every year before it having passed. */
  function FirstError(years: seq<string>, dfs: Frames, check: (string, Table) -> Option<Error>): (e: Option<Error>)
    ensures e.None? <==> forall k | 0 <= k < |years| && years[k] in dfs :: check(years[k], dfs[years[k]]).None?
    ensures e.Some? ==> exists k | 0 <= k < |years| && years[k] in dfs :: check(years[k], dfs[years[k]]) == e
  {
    if years == [] then None
    else if years[0] in dfs && check(years[0], dfs[years[0]]).Some? then check(years[0], dfs[years[0]])
    else
      var e := FirstError(years[1..], dfs, check);
      assert forall k | 1 <= k < |years| :: years[1..][k - 1] == years[k];
      e
  }

  /** The error reported is that of the FIRST failing year in the visiting order:
      every year before it is absent or passes its check. */
  lemma {:induction false} FirstErrorIsFirst(years: seq<string>, dfs: Frames, check: (string, Table) -> Option<Error>)
    returns (k: nat)
    requires FirstError(years, dfs, check).Some?
    ensures k < |years| && years[k] in dfs && check(years[k], dfs[years[k]]) == FirstError(years, dfs, check)
    ensures forall j | 0 <= j < k :: years[j] !in dfs || check(years[j], dfs[years[j]]).None?
  {
    if years[0] in dfs && check(years[0], dfs[years[0]]).Some? {
      k := 0;
    } else {
      var k1 := FirstErrorIsFirst(years[1..], dfs, check);
      k := k1 + 1;
      assert years[k] == years[1..][k1];
      forall j | 0 <= j < k ensures years[j] !in dfs || check(years[j], dfs[years[j]]).None? {
        if j > 0 {
          assert years[j] == years[1..][j - 1];
        }
      }
    }
  }

  /** The outcome of one per-year stage: the first failing year's error, or every
      frame transformed. */
  function Stage(years: seq<string>, dfs: Frames, check: (string, Table) -> Option<Error>,
                 f: (string, Table) -> Table): Result<Frames>
  {
    match FirstError(years, dfs, check)
    case Some(e) => Err(e)
    case None => Ok(MapYears(dfs, f))
  }

  /** A stage that cannot fail. */
  function NoCheck(y: string, t: Table): Option<Error>
  {
    None
  }

  /** A successful stage keeps the dictionary's years. */
  lemma StageKeepsYears(years: seq<string>, dfs: Frames, check: (string, Table) -> Option<Error>,
                        f: (string, Table) -> Table)
    requires YearOrder(years, dfs) && Stage(years, dfs, check, f).Ok?
    ensures YearOrder(years, Stage(years, dfs, check, f).value)
  {
    assert Stage(years, dfs, check, f).value.Keys == dfs.Keys;
  }

  /** The loop of one per-year stage, updating the dictionary year by year in
      place; a failing check ends the whole run with its error. */
  method EachYear(years: seq<string>, dfs0: Frames, check: (string, Table) -> Option<Error>,
                  f: (string, Table) -> Table) returns (r: Result<Frames>)
    requires YearOrder(years, dfs0)
    ensures r == Stage(years, dfs0, check, f)
  {
    var dfs := dfs0;
    ghost var done: set<string> := {};
    var i := 0;
    while i < |years|
      invariant 0 <= i <= |years|
      invariant dfs.Keys == dfs0.Keys
      invariant forall k | 0 <= k < |years| :: years[k] in done <==> k < i
      invariant forall y | y in dfs0 :: dfs[y] == if y in done then f(y, dfs0[y]) else dfs0[y]
      invariant FirstError(years, dfs0, check) == FirstError(years[i..], dfs0, check)
    {
      var y := years[i];
      var e := check(y, dfs[y]);
      if e.Some? {
        return Err(e.value);
      }
      assert years[i..][1..] == years[i + 1..];
      dfs := dfs[y := f(y, dfs[y])];
      done := done + {y};
      i := i + 1;
    }
    assert forall y | y in dfs0 :: y in done;
    assert dfs == MapYears(dfs0, f);
    return Ok(dfs);
  }
}
