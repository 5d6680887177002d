/**
 * The median pandas computes for a numeric column: missing values are
 * skipped, the middle value of the sorted rest is taken, or the mean of the
 * two middle values when their number is even.
 */
module Statistics {
  import opened Wrappers

  predicate Sorted(s: seq<real>) {
    forall i, j | 0 <= i < j < |s| :: s[i] <= s[j]
  }

  /** How many elements are at least `m`. */
  function CountAtLeast(s: seq<real>, m: real): nat {
    if |s| == 0 then 0 else (if s[0] >= m then 1 else 0) + CountAtLeast(s[1..], m)
  }

  /** How many elements are at most `m`. */
  function CountAtMost(s: seq<real>, m: real): nat {
    if |s| == 0 then 0 else (if s[0] <= m then 1 else 0) + CountAtMost(s[1..], m)
  }

  /** Inserts `x` into a sorted list, before the first element not below it. */
  function InsertReal(s: seq<real>, x: real): (r: seq<real>)
    requires Sorted(s)
    ensures Sorted(r)
    ensures multiset(r) == multiset(s) + multiset{x}
  {
    if |s| == 0 then [x]
    else if x <= s[0] then
      InsertFront(s, x);
      [x] + s
    else
      var rest := InsertReal(s[1..], x);
      InsertBehind(s, x, rest);
      [s[0]] + rest
  }

  /** `x` goes in front of a sorted list whose first element is not below it. */
  lemma InsertFront(s: seq<real>, x: real)
    requires Sorted(s) && |s| > 0 && x <= s[0]
    ensures Sorted([x] + s)
    ensures multiset([x] + s) == multiset(s) + multiset{x}
  {
  }

  /** The head of a sorted list stays in front of `x` inserted into its tail. */
  lemma InsertBehind(s: seq<real>, x: real, rest: seq<real>)
    requires Sorted(s) && |s| > 0 && s[0] < x
    requires Sorted(rest) && multiset(rest) == multiset(s[1..]) + multiset{x}
    ensures Sorted([s[0]] + rest)
    ensures multiset([s[0]] + rest) == multiset(s) + multiset{x}
  {
    forall k | 0 <= k < |rest| ensures s[0] <= rest[k] {
      assert rest[k] in multiset(rest);
    }
    assert s == [s[0]] + s[1..];
  }

  /** Inserting `x` adds one to exactly the threshold counts `x` meets. */
  lemma {:induction false} InsertRealCounts(s: seq<real>, x: real, m: real)
    requires Sorted(s)
    ensures CountAtLeast(InsertReal(s, x), m) == CountAtLeast(s, m) + (if x >= m then 1 else 0)
    ensures CountAtMost(InsertReal(s, x), m) == CountAtMost(s, m) + (if x <= m then 1 else 0)
  {
    if |s| > 0 {
      if x <= s[0] {
        assert InsertReal(s, x)[1..] == s;
      } else {
        InsertRealCounts(s[1..], x, m);
        assert InsertReal(s, x)[1..] == InsertReal(s[1..], x);
      }
    }
  }

  /** Insertion sort: a sorted permutation of the input. */
  function SortReals(xs: seq<real>): (r: seq<real>)
    ensures Sorted(r)
    ensures multiset(r) == multiset(xs)
    ensures |r| == |xs|
  {
    if |xs| == 0 then []
    else
      var r := InsertReal(SortReals(xs[1..]), xs[0]);
      MultisetCons(xs);
      SameSize(r, xs);
      r
  }

  lemma MultisetCons(xs: seq<real>)
    requires |xs| > 0
    ensures multiset(xs) == multiset(xs[1..]) + multiset{xs[0]}
  {
    assert xs == [xs[0]] + xs[1..];
  }

  lemma SameSize(a: seq<real>, b: seq<real>)
    requires multiset(a) == multiset(b)
    ensures |a| == |b|
  {
    assert |a| == |multiset(a)|;
  }

  /** Sorting keeps every threshold count. */
  lemma {:induction false} SortRealsCounts(xs: seq<real>, m: real)
    ensures CountAtLeast(SortReals(xs), m) == CountAtLeast(xs, m)
    ensures CountAtMost(SortReals(xs), m) == CountAtMost(xs, m)
  {
    if |xs| > 0 {
      SortRealsCounts(xs[1..], m);
      InsertRealCounts(SortReals(xs[1..]), xs[0], m);
    }
  }

  /** The values that are present. */
  function Present(xs: seq<Option<real>>): (r: seq<real>)
    ensures forall v :: v in r <==> Some(v) in xs
  {
    if |xs| == 0 then []
    else
      assert xs == [xs[0]] + xs[1..];
      match xs[0]
      case None => Present(xs[1..])
      case Some(v) => [v] + Present(xs[1..])
  }

  /** The median of a sorted, non-empty list. */
  function MiddleOf(s: seq<real>): real
    requires |s| > 0
  {
    var n := |s|;
    if n % 2 == 1 then s[n / 2] else (s[n / 2 - 1] + s[n / 2]) / 2.0
  }

  /** `Series.median()`: `None` (NaN) when no value is present. */
  function Median(xs: seq<Option<real>>): (r: Option<real>)
    ensures r.None? <==> |Present(xs)| == 0
  {
    var vs := SortReals(Present(xs));
    if |vs| == 0 then None else Some(MiddleOf(vs))
  }

  /** In a sorted list, every element from position `lo` on is at least `m`, so they all count. */
  lemma {:induction false} CountAtLeastSuffix(s: seq<real>, m: real, lo: nat)
    requires lo <= |s|
    requires forall k | lo <= k < |s| :: s[k] >= m
    ensures CountAtLeast(s, m) >= |s| - lo
  {
    if |s| > 0 {
      if lo == 0 {
        CountAtLeastSuffix(s[1..], m, 0);
      } else {
        CountAtLeastSuffix(s[1..], m, lo - 1);
      }
    }
  }

  /** Every element before position `hi` is at most `m`, so they all count. */
  lemma {:induction false} CountAtMostPrefix(s: seq<real>, m: real, hi: nat)
    requires hi <= |s|
    requires forall k | 0 <= k < hi :: s[k] <= m
    ensures CountAtMost(s, m) >= hi
  {
    if |s| > 0 && hi > 0 {
      CountAtMostPrefix(s[1..], m, hi - 1);
    }
  }

  /** The middle of a sorted list has at least half the list on either side. */
  lemma MiddleSplits(vs: seq<real>)
    requires Sorted(vs) && |vs| > 0
    ensures 2 * CountAtLeast(vs, MiddleOf(vs)) >= |vs|
    ensures 2 * CountAtMost(vs, MiddleOf(vs)) >= |vs|
  {
    var n := |vs|;
    var h := n / 2;
    var m := MiddleOf(vs);
    if n % 2 == 1 {
      assert m == vs[h];
      assert forall k | h <= k < n :: vs[k] >= m;
      assert forall k | 0 <= k < h + 1 :: vs[k] <= m;
      CountAtLeastSuffix(vs, m, h);
      CountAtMostPrefix(vs, m, h + 1);
    } else {
      assert vs[h - 1] <= m <= vs[h];
      assert forall k | h <= k < n :: vs[k] >= m by {
        forall k | h <= k < n ensures vs[k] >= m {
          assert vs[h] <= vs[k];
        }
      }
      assert forall k | 0 <= k < h :: vs[k] <= m by {
        forall k | 0 <= k < h ensures vs[k] <= m {
          assert vs[k] <= vs[h - 1];
        }
      }
      CountAtLeastSuffix(vs, m, h);
      CountAtMostPrefix(vs, m, h);
    }
  }

  /**
   * The median splits the present values in half: at least half of them
   * are at or above it and at least half are at or below it.
   */
  lemma MedianSplitsInHalf(xs: seq<Option<real>>)
    requires |Present(xs)| > 0
    ensures 2 * CountAtLeast(Present(xs), Median(xs).value) >= |Present(xs)|
    ensures 2 * CountAtMost(Present(xs), Median(xs).value) >= |Present(xs)|
  {
    var vs := SortReals(Present(xs));
    MiddleSplits(vs);
    assert Median(xs).value == MiddleOf(vs);
    SortRealsCounts(Present(xs), MiddleOf(vs));
  }
}
