/** Generic facts about sequences: distinctness, occurrence counts and subsequences. */
module Seqs {

  /** No element occurs twice. */
  predicate Distinct<T(==)>(s: seq<T>) {
    forall i, j | 0 <= i < j < |s| :: s[i] != s[j]
  }

  /** The number of occurrences of `x` in `s`. */
  function Occ<T(==)>(s: seq<T>, x: T): nat
  {
    if |s| == 0 then 0
    else Occ(s[..|s| - 1], x) + (if s[|s| - 1] == x then 1 else 0)
  }

  /** The occurrences of every element of `keys` in `s`, added up. */
  function SumOcc<T(==)>(s: seq<T>, keys: seq<T>): nat
  {
    if |keys| == 0 then 0
    else SumOcc(s, keys[..|keys| - 1]) + Occ(s, keys[|keys| - 1])
  }

  /** `a` is obtained from `b` by deleting elements, keeping the order of the rest. */
  predicate Subsequence<T(==)>(a: seq<T>, b: seq<T>)
    decreases |b|
  {
    if |a| == 0 then true
    else if |b| == 0 then false
    else if a[|a| - 1] == b[|b| - 1] then Subsequence(a[..|a| - 1], b[..|b| - 1])
    else Subsequence(a, b[..|b| - 1])
  }

  /** Appending `y` adds one occurrence of `y` and none of anything else. */
  lemma OccSnoc<T>(s: seq<T>, y: T, x: T)
    ensures Occ(s + [y], x) == Occ(s, x) + (if y == x then 1 else 0)
  {
    assert (s + [y])[..|s|] == s;
  }

  lemma {:induction false} OccMember<T>(s: seq<T>, x: T)
    ensures Occ(s, x) > 0 <==> x in s
  {
    if |s| > 0 {
      OccMember(s[..|s| - 1], x);
      assert s == s[..|s| - 1] + [s[|s| - 1]];
    }
  }

  /** A key listed once among distinct keys is counted once. */
  lemma {:induction false} OccDistinct<T>(keys: seq<T>, x: T)
    requires Distinct(keys)
    ensures Occ(keys, x) == if x in keys then 1 else 0
  {
    if |keys| > 0 {
      var init := keys[..|keys| - 1];
      OccDistinct(init, x);
      assert keys == init + [keys[|keys| - 1]];
      if keys[|keys| - 1] == x {
        assert x !in init;
      }
    }
  }

  /** Appending `y` to `s` adds, over all keys, one per occurrence of `y` among the keys. */
  lemma {:induction false} SumOccSnoc<T>(s: seq<T>, y: T, keys: seq<T>)
    ensures SumOcc(s + [y], keys) == SumOcc(s, keys) + Occ(keys, y)
  {
    if |keys| > 0 {
      SumOccSnoc(s, y, keys[..|keys| - 1]);
      assert (s + [y])[..|s + [y]| - 1] == s;
    }
  }

  /**
   * Counting every element of `s` under the key it equals partitions `s`:
   * when the keys are distinct and cover `s`, the counts add up to `|s|`.
   */
  lemma {:induction false} SumOccPartition<T>(s: seq<T>, keys: seq<T>)
    requires Distinct(keys)
    requires forall i | 0 <= i < |s| :: s[i] in keys
    ensures SumOcc(s, keys) == |s|
  {
    if |s| == 0 {
      SumOccEmpty(s, keys);
    } else {
      var init := s[..|s| - 1];
      SumOccPartition(init, keys);
      assert s == init + [s[|s| - 1]];
      SumOccSnoc(init, s[|s| - 1], keys);
      OccDistinct(keys, s[|s| - 1]);
    }
  }

  lemma {:induction false} SumOccEmpty<T>(s: seq<T>, keys: seq<T>)
    requires |s| == 0
    ensures SumOcc(s, keys) == 0
  {
    if |keys| > 0 {
      SumOccEmpty(s, keys[..|keys| - 1]);
    }
  }

  /** The set of elements of a sequence. */
  function Elems<T(==)>(s: seq<T>): set<T> {
    set x | x in s
  }

  /** A distinct sequence has as many elements as its set of elements. */
  lemma {:induction false} DistinctCardinality<T>(s: seq<T>)
    requires Distinct(s)
    ensures |Elems(s)| == |s|
  {
    if |s| > 0 {
      var init := s[..|s| - 1];
      DistinctCardinality(init);
      assert Elems(s) == Elems(init) + {s[|s| - 1]};
      assert s[|s| - 1] !in Elems(init);
    }
  }

  /** No sequence has more distinct elements than positions. */
  lemma {:induction false} ElemsCardinality<T>(s: seq<T>)
    ensures |Elems(s)| <= |s|
  {
    if |s| > 0 {
      var init := s[..|s| - 1];
      ElemsCardinality(init);
      assert Elems(s) == Elems(init) + {s[|s| - 1]};
    }
  }
}
