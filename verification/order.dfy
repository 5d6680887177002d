/**
 * The order in which the label encoder and the pivot table list the distinct
 * values of a column: numbers by magnitude, strings by code point
 * (lexicographically, as Python compares `str`), and missing cells last.
 */
module Order {
  import opened Wrappers
  import opened Seqs
  import opened Tables

  /** Python's `str.__lt__`: lexicographic by code point, a proper prefix first. */
  predicate StrLess(a: string, b: string)
    decreases |a|
  {
    if |a| == 0 then |b| > 0
    else if |b| == 0 then false
    else if a[0] != b[0] then a[0] < b[0]
    else StrLess(a[1..], b[1..])
  }

  /** Numbers compare numerically, strings lexicographically; numbers precede strings. */
  predicate ValueLess(a: Value, b: Value) {
    match (a, b)
    case (Num(x), Num(y)) => x < y
    case (Str(s), Str(u)) => StrLess(s, u)
    case (Num(_), Str(_)) => true
    case (Str(_), Num(_)) => false
  }

  /** Present cells in value order, then the missing cell. */
  predicate CellLess(a: Cell, b: Cell) {
    match (a, b)
    case (Some(x), Some(y)) => ValueLess(x, y)
    case (Some(_), None) => true
    case (None, _) => false
  }

  lemma {:induction false} StrLessIrreflexive(a: string)
    ensures !StrLess(a, a)
    decreases |a|
  {
    if |a| > 0 {
      StrLessIrreflexive(a[1..]);
    }
  }

  lemma {:induction false} StrLessTransitive(a: string, b: string, c: string)
    requires StrLess(a, b) && StrLess(b, c)
    ensures StrLess(a, c)
    decreases |a|
  {
    if |a| > 0 && a[0] == b[0] && b[0] == c[0] {
      StrLessTransitive(a[1..], b[1..], c[1..]);
    }
  }

  lemma {:induction false} StrLessTotal(a: string, b: string)
    ensures a == b || StrLess(a, b) || StrLess(b, a)
    decreases |a|
  {
    if |a| > 0 && |b| > 0 && a[0] == b[0] {
      StrLessTotal(a[1..], b[1..]);
      if a[1..] == b[1..] {
        assert a == [a[0]] + a[1..] && b == [b[0]] + b[1..];
      }
    }
  }

  /** `CellLess` is a strict total order on cells. */
  lemma CellLessIrreflexive(a: Cell)
    ensures !CellLess(a, a)
  {
    if a.Some? && a.value.Str? {
      StrLessIrreflexive(a.value.s);
    }
  }

  lemma CellLessTransitive(a: Cell, b: Cell, c: Cell)
    requires CellLess(a, b) && CellLess(b, c)
    ensures CellLess(a, c)
  {
    if a.Some? && b.Some? && c.Some? && a.value.Str? && b.value.Str? && c.value.Str? {
      StrLessTransitive(a.value.s, b.value.s, c.value.s);
    }
  }

  lemma CellLessTotal(a: Cell, b: Cell)
    ensures a == b || CellLess(a, b) || CellLess(b, a)
  {
    if a.Some? && b.Some? && a.value.Str? && b.value.Str? {
      StrLessTotal(a.value.s, b.value.s);
    }
  }

  /** Every earlier element is below every later one: sorted without repeats. */
  predicate StrictlySorted(s: seq<Cell>) {
    forall i, j | 0 <= i < j < |s| :: CellLess(s[i], s[j])
  }

  lemma StrictlySortedDistinct(s: seq<Cell>)
    requires StrictlySorted(s)
    ensures Distinct(s)
  {
    forall i, j | 0 <= i < j < |s|
      ensures s[i] != s[j]
    {
      CellLessIrreflexive(s[i]);
    }
  }

  /** Adds `x` to a sorted, repeat-free list unless it is already there. */
  function Insert(s: seq<Cell>, x: Cell): (r: seq<Cell>)
    requires StrictlySorted(s)
    ensures StrictlySorted(r)
    ensures forall y :: y in r <==> y in s || y == x
  {
    if |s| == 0 then [x]
    else if x == s[0] then s
    else if CellLess(x, s[0]) then
      assert forall j | 0 < j < |s| :: CellLess(x, s[j]) by {
        forall j | 0 < j < |s| ensures CellLess(x, s[j]) {
          CellLessTransitive(x, s[0], s[j]);
        }
      }
      [x] + s
    else
      CellLessTotal(x, s[0]);
      var rest := Insert(s[1..], x);
      assert forall y | y in rest :: CellLess(s[0], y);
      [s[0]] + rest
  }

  /**
   * The distinct cells of a column in ascending order, missing last: the
   * `classes_` a label encoder learns, and the labels of a pivot axis.
   */
  function Classes(col: seq<Cell>): (r: seq<Cell>)
    ensures StrictlySorted(r)
    ensures forall y :: y in r <==> y in col
    ensures |r| == |Elems(col)|
    ensures |r| <= |col|
  {
    if |col| == 0 then
      assert Elems(col) == {};
      []
    else
      var init := col[..|col| - 1];
      assert col == init + [col[|col| - 1]];
      var r := Insert(Classes(init), col[|col| - 1]);
      ClassesLength(r, col);
      r
  }

  /** A repeat-free list of exactly the cells of `col` has one entry per distinct cell, so no more than `col`. */
  lemma ClassesLength(r: seq<Cell>, col: seq<Cell>)
    requires StrictlySorted(r)
    requires forall y :: y in r <==> y in col
    ensures |r| == |Elems(col)|
    ensures |r| <= |col|
  {
    StrictlySortedDistinct(r);
    DistinctCardinality(r);
    assert Elems(r) == Elems(col);
    ElemsCardinality(col);
  }

  /** The position of `x` in `s`: the code a label encoder gives `x`. */
  function IndexOf(s: seq<Cell>, x: Cell): (k: nat)
    requires x in s
    ensures k < |s| && s[k] == x
    ensures forall j | 0 <= j < k :: s[j] != x
  {
    if s[0] == x then 0 else 1 + IndexOf(s[1..], x)
  }
}
