/** The orders the pipeline and the dashboard sort by: Python's code-point order
    on text, pandas' order on cells (numbers, then text, NaN last), and the
    lexicographic order on tuples of cells that a multi-column sort uses. */
module Ordering {
  import opened Frame

  /** Python's string comparison: code point by code point, a proper prefix first. */
  predicate StrLt(a: string, b: string)
    decreases |a|
  {
    if a == [] then b != []
    else if b == [] then false
    else a[0] < b[0] || (a[0] == b[0] && StrLt(a[1..], b[1..]))
  }

  lemma {:induction false} StrLtIrreflexive(a: string)
    ensures !StrLt(a, a)
  {
    if a != [] {
      StrLtIrreflexive(a[1..]);
    }
  }

  lemma {:induction false} StrLtTransitive(a: string, b: string, c: string)
    requires StrLt(a, b) && StrLt(b, c)
    ensures StrLt(a, c)
  {
    if a != [] && a[0] == b[0] && b[0] == c[0] {
      StrLtTransitive(a[1..], b[1..], c[1..]);
    }
  }

  lemma {:induction false} StrLtTotal(a: string, b: string)
    requires a != b
    ensures StrLt(a, b) || StrLt(b, a)
  {
    if a != [] && b != [] && a[0] == b[0] {
      assert a == [a[0]] + a[1..] && b == [b[0]] + b[1..];
      StrLtTotal(a[1..], b[1..]);
    }
  }

  /** The order sort_values uses over cells (wrangling.py:181): numbers, then
      text, then NaN last. */
  predicate ValueLt(a: Value, b: Value)
  {
    match (a, b)
    case (Num(x), Num(y)) => x < y
    case (Str(x), Str(y)) => StrLt(x, y)
    case (Num(_), Str(_)) => true
    case (Missing, _) => false
    case (_, Missing) => true
    case (_, _) => false
  }

  lemma ValueLtIrreflexive(a: Value)
    ensures !ValueLt(a, a)
  {
    if a.Str? {
      StrLtIrreflexive(a.s);
    }
  }

  lemma ValueLtTransitive(a: Value, b: Value, c: Value)
    requires ValueLt(a, b) && ValueLt(b, c)
    ensures ValueLt(a, c)
  {
    if a.Str? && b.Str? && c.Str? {
      StrLtTransitive(a.s, b.s, c.s);
    }
  }

  lemma ValueLtTotal(a: Value, b: Value)
    requires a != b
    ensures ValueLt(a, b) || ValueLt(b, a)
  {
    if a.Str? && b.Str? {
      StrLtTotal(a.s, b.s);
    }
  }

  /** Lexicographic order on tuples of cells, as a multi-column sort compares rows. */
  predicate KeyLt(a: seq<Value>, b: seq<Value>)
    decreases |a|
  {
    if a == [] then b != []
    else if b == [] then false
    else ValueLt(a[0], b[0]) || (a[0] == b[0] && KeyLt(a[1..], b[1..]))
  }

  lemma {:induction false} KeyLtIrreflexive(a: seq<Value>)
    ensures !KeyLt(a, a)
  {
    if a != [] {
      ValueLtIrreflexive(a[0]);
      KeyLtIrreflexive(a[1..]);
    }
  }

  lemma {:induction false} KeyLtTransitive(a: seq<Value>, b: seq<Value>, c: seq<Value>)
    requires KeyLt(a, b) && KeyLt(b, c)
    ensures KeyLt(a, c)
  {
    if a != [] {
      if a[0] == b[0] && b[0] == c[0] {
        ValueLtIrreflexive(a[0]);
        KeyLtTransitive(a[1..], b[1..], c[1..]);
      } else if ValueLt(a[0], b[0]) && ValueLt(b[0], c[0]) {
        ValueLtTransitive(a[0], b[0], c[0]);
      }
    }
  }

  lemma {:induction false} KeyLtTotal(a: seq<Value>, b: seq<Value>)
    requires a != b
    ensures KeyLt(a, b) || KeyLt(b, a)
  {
    if a != [] && b != [] {
      if a[0] == b[0] {
        assert a == [a[0]] + a[1..] && b == [b[0]] + b[1..];
        KeyLtTotal(a[1..], b[1..]);
      } else {
        ValueLtTotal(a[0], b[0]);
      }
    }
  }

  /** Two tuples not strictly ordered either way are equal. */
  lemma KeyLtAntisymmetric(a: seq<Value>, b: seq<Value>)
    requires !KeyLt(a, b) && !KeyLt(b, a)
    ensures a == b
  {
    if a != b {
      KeyLtTotal(a, b);
    }
  }

  /** Comparing the first n components decides the comparison of the whole tuples
      whenever those components differ. */
  lemma {:induction false} KeyLtPrefix(a: seq<Value>, b: seq<Value>, n: nat)
    requires n <= |a| && n <= |b| && KeyLt(a[..n], b[..n])
    ensures KeyLt(a, b)
  {
    if n > 0 && a[0] == b[0] {
      ValueLtIrreflexive(a[0]);
      assert a[..n][1..] == a[1..][..n - 1] && b[..n][1..] == b[1..][..n - 1];
      KeyLtPrefix(a[1..], b[1..], n - 1);
    }
  }
}
