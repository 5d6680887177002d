/**
 * The feature-engineering stage: rank every non-target column by a
 * relevance score, keep the five best, and write those columns followed by
 * the target. The scores (mutual information in the program) are an input.
 */
module FeatureEngineering {
  import opened Wrappers
  import opened Seqs
  import opened Tables

  const TopK: nat := 5

  function Min(a: nat, b: nat): nat {
    if a <= b then a else b
  }

  /** `df.drop(columns=[c])` on a frame that has `c`. */
  function DropColumn(t: Frame, c: ColName): (r: Frame)
    requires c in t.columns
    ensures forall d :: d in r.columns <==> d in t.columns && d != c
    ensures Subsequence(r.columns, t.columns)
    ensures |r.rows| == |t.rows|
    ensures forall d | d in r.columns :: Column(r, d) == Column(t, d)
  {
    var cols := Without(t.columns, c);
    var rows := seq(|t.rows|, i requires 0 <= i < |t.rows| => map d | d in t.rows[i] && d != c :: t.rows[i][d]);
    var r: Frame := Table(cols, rows);
    r
  }

  /** `s` with every occurrence of `c` removed, order kept. */
  function Without(s: seq<ColName>, c: ColName): (r: seq<ColName>)
    ensures forall d :: d in r <==> d in s && d != c
    ensures Subsequence(r, s)
    ensures Distinct(s) ==> Distinct(r)
  {
    if |s| == 0 then []
    else
      var init := Without(s[..|s| - 1], c);
      var last := s[|s| - 1];
      assert s == s[..|s| - 1] + [last];
      if last == c then
        assert |init| > 0 ==> init[|init| - 1] in init;
        init
      else
        var r := init + [last];
        assert r[..|r| - 1] == init;
        assert Distinct(s) ==> last !in s[..|s| - 1];
        r
  }

  /** The candidate features: every column but the target, in column order. */
  function Candidates(t: Frame): (r: seq<ColName>)
    ensures forall d :: d in r <==> d in t.columns && d != Target
    ensures Distinct(r)
  {
    Without(t.columns, Target)
  }

  // ---------------------------------------------------------------------------
  // Ranking

  /** A candidate with its score and its position among the candidates. */
  datatype Scored = Scored(col: ColName, score: real, pos: nat)

  /**
   * `a` ranks strictly ahead of `b`: a higher score, or the same score and
   * an earlier column. Earlier columns win ties: the program leaves the
   * order of equal scores to an unstable sort, and this model fixes it.
   */
  predicate Before(a: Scored, b: Scored) {
    a.score > b.score || (a.score == b.score && a.pos < b.pos)
  }

  predicate Ranked(s: seq<Scored>) {
    forall i, j | 0 <= i < j < |s| :: Before(s[i], s[j])
  }

  /** The candidates paired with their scores and positions. */
  function Enumerate(cols: seq<ColName>, score: ColName -> real): (r: seq<Scored>)
    ensures |r| == |cols|
    ensures forall i | 0 <= i < |r| :: r[i] == Scored(cols[i], score(cols[i]), i)
  {
    seq(|cols|, i requires 0 <= i < |cols| => Scored(cols[i], score(cols[i]), i))
  }

  /** Places `e` after every entry ranked ahead of it. */
  function InsertRanked(s: seq<Scored>, e: Scored): (r: seq<Scored>)
    requires Ranked(s)
    requires forall x | x in s :: x.pos != e.pos
    ensures Ranked(r)
    ensures |r| == |s| + 1
    ensures forall y :: y in r <==> y in s || y == e
  {
    if |s| == 0 then [e]
    else if Before(e, s[0]) then [e] + s
    else
      var rest := InsertRanked(s[1..], e);
      assert Before(s[0], e);
      assert forall y | y in rest :: Before(s[0], y);
      [s[0]] + rest
  }

  /** Sorts entries with distinct positions from best to worst (insertion sort). */
  function Rank(es: seq<Scored>): (r: seq<Scored>)
    requires forall i, j | 0 <= i < j < |es| :: es[i].pos != es[j].pos
    ensures Ranked(r)
    ensures |r| == |es|
    ensures forall y :: y in r <==> y in es
  {
    if |es| == 0 then []
    else
      var init := es[..|es| - 1];
      assert es == init + [es[|es| - 1]];
      InsertRanked(Rank(init), es[|es| - 1])
  }

  /** The feature names of a ranking prefix. */
  function Names(s: seq<Scored>): (r: seq<ColName>)
    ensures |r| == |s|
    ensures forall i | 0 <= i < |s| :: r[i] == s[i].col
  {
    seq(|s|, i requires 0 <= i < |s| => s[i].col)
  }

  /** The ranking of all candidates, and the names of the top `TopK`. */
  datatype Selection = Selection(features: seq<ColName>, ranking: seq<Scored>)

  /**
   * The top-`TopK` candidates: as many as there are candidates up to five,
   * distinct, in descending score order, each scoring at least as high as
   * every candidate left out, and of two equally scored candidates the
   * earlier column is kept and, when both are kept, listed first.
   */
  predicate IsTopK(cands: seq<ColName>, score: ColName -> real, features: seq<ColName>) {
    && |features| == Min(TopK, |cands|)
    && Distinct(features)
    && (forall f | f in features :: f in cands)
    && (forall i, j | 0 <= i < j < |features| :: score(features[i]) >= score(features[j]))
    && (forall f, c | f in features && c in cands && c !in features :: score(f) >= score(c))
    && (forall i, j | 0 <= i < j < |cands| && score(cands[i]) == score(cands[j]) && cands[j] in features ::
          cands[i] in features)
    && (forall p, q, i, j |
          && 0 <= p < |features| && 0 <= q < |features| && 0 <= i < j < |cands|
          && features[p] == cands[i] && features[q] == cands[j] && score(cands[i]) == score(cands[j]) ::
          p < q)
  }

  /**
   * `ranking` orders all candidates: each entry is the candidate at its
   * position with that candidate's score, and every position appears.
   */
  predicate RanksAll(cands: seq<ColName>, score: ColName -> real, ranking: seq<Scored>) {
    && Ranked(ranking)
    && |ranking| == |cands|
    && (forall q | 0 <= q < |ranking| ::
          ranking[q].pos < |cands| && ranking[q].col == cands[ranking[q].pos] && ranking[q].score == score(ranking[q].col))
    && (forall p | 0 <= p < |cands| :: Scored(cands[p], score(cands[p]), p) in ranking)
  }

  lemma RankRanksAll(cands: seq<ColName>, score: ColName -> real, ranking: seq<Scored>)
    requires Ranked(ranking) && |ranking| == |cands|
    requires forall y :: y in ranking <==> y in Enumerate(cands, score)
    ensures RanksAll(cands, score, ranking)
  {
    var es := Enumerate(cands, score);
    forall q | 0 <= q < |ranking|
      ensures ranking[q].pos < |cands| && ranking[q].col == cands[ranking[q].pos] && ranking[q].score == score(ranking[q].col)
    {
      assert ranking[q] in es;
    }
    forall p | 0 <= p < |cands|
      ensures Scored(cands[p], score(cands[p]), p) in ranking
    {
      assert es[p] in ranking;
    }
  }

  /** Ranked entries sit at distinct positions, so they name distinct candidates. */
  lemma RankedNamesDistinct(cands: seq<ColName>, score: ColName -> real, ranking: seq<Scored>, k: nat)
    requires Distinct(cands) && RanksAll(cands, score, ranking) && k <= |ranking|
    ensures Distinct(Names(ranking[..k]))
    ensures forall f | f in Names(ranking[..k]) :: f in cands
  {
    var features := Names(ranking[..k]);
    forall i, j | 0 <= i < j < |features| ensures features[i] != features[j] {
      assert Before(ranking[i], ranking[j]);
    }
    forall f | f in features ensures f in cands {
      var i :| 0 <= i < |features| && features[i] == f;
      assert ranking[i].col == cands[ranking[i].pos];
    }
  }

  /** The entry of the candidate at position `p` lies at or after `k` when the candidate is not in the prefix. */
  lemma LeftOutRankedLater(cands: seq<ColName>, score: ColName -> real, ranking: seq<Scored>, k: nat, p: nat)
    returns (q: nat)
    requires Distinct(cands) && RanksAll(cands, score, ranking) && k <= |ranking|
    requires p < |cands| && cands[p] !in Names(ranking[..k])
    ensures k <= q < |ranking| && ranking[q].pos == p && ranking[q].col == cands[p]
  {
    assert Scored(cands[p], score(cands[p]), p) in ranking;
    q :| 0 <= q < |ranking| && ranking[q] == Scored(cands[p], score(cands[p]), p);
    assert forall m | 0 <= m < k :: ranking[m].col == Names(ranking[..k])[m];
  }

  /** Every kept candidate scores at least as high as every candidate left out. */
  lemma PrefixDominates(cands: seq<ColName>, score: ColName -> real, ranking: seq<Scored>, k: nat)
    requires Distinct(cands) && RanksAll(cands, score, ranking) && k <= |ranking|
    ensures forall f, c | f in Names(ranking[..k]) && c in cands && c !in Names(ranking[..k]) :: score(f) >= score(c)
  {
    var features := Names(ranking[..k]);
    forall f, c | f in features && c in cands && c !in features
      ensures score(f) >= score(c)
    {
      var i :| 0 <= i < k && features[i] == f;
      var p :| 0 <= p < |cands| && cands[p] == c;
      var q := LeftOutRankedLater(cands, score, ranking, k, p);
      assert Before(ranking[i], ranking[q]);
    }
  }

  /** Of two equally scored candidates, the earlier one is kept whenever the later one is. */
  lemma PrefixTieBreak(cands: seq<ColName>, score: ColName -> real, ranking: seq<Scored>, k: nat)
    requires Distinct(cands) && RanksAll(cands, score, ranking) && k <= |ranking|
    ensures forall i, j | 0 <= i < j < |cands| && score(cands[i]) == score(cands[j]) && cands[j] in Names(ranking[..k]) ::
      cands[i] in Names(ranking[..k])
  {
    var features := Names(ranking[..k]);
    forall i, j | 0 <= i < j < |cands| && score(cands[i]) == score(cands[j]) && cands[j] in features
      ensures cands[i] in features
    {
      var m :| 0 <= m < k && features[m] == cands[j];
      assert ranking[m].pos == j by {
        assert cands[ranking[m].pos] == cands[j];
      }
      if cands[i] !in features {
        var q := LeftOutRankedLater(cands, score, ranking, k, i);
        assert false;
      }
    }
  }

  /** Of two equally scored kept candidates, the earlier column comes first. */
  lemma PrefixTieOrder(cands: seq<ColName>, score: ColName -> real, ranking: seq<Scored>, k: nat)
    requires Distinct(cands) && RanksAll(cands, score, ranking) && k <= |ranking|
    ensures var features := Names(ranking[..k]);
      forall p, q, i, j |
        && 0 <= p < |features| && 0 <= q < |features| && 0 <= i < j < |cands|
        && features[p] == cands[i] && features[q] == cands[j] && score(cands[i]) == score(cands[j]) ::
        p < q
  {
    var features := Names(ranking[..k]);
    forall p, q, i, j |
      && 0 <= p < |features| && 0 <= q < |features| && 0 <= i < j < |cands|
      && features[p] == cands[i] && features[q] == cands[j] && score(cands[i]) == score(cands[j])
      ensures p < q
    {
      assert ranking[p].pos == i by {
        assert cands[ranking[p].pos] == cands[i];
      }
      assert ranking[q].pos == j by {
        assert cands[ranking[q].pos] == cands[j];
      }
    }
  }

  /** Ranking the enumerated candidates and keeping a prefix yields the top candidates. */
  lemma RankPrefixIsTopK(cands: seq<ColName>, score: ColName -> real, ranking: seq<Scored>)
    requires Distinct(cands)
    requires Ranked(ranking) && |ranking| == |cands|
    requires forall y :: y in ranking <==> y in Enumerate(cands, score)
    ensures IsTopK(cands, score, Names(ranking[..Min(TopK, |cands|)]))
  {
    var k := Min(TopK, |cands|);
    RankRanksAll(cands, score, ranking);
    RankedNamesDistinct(cands, score, ranking, k);
    PrefixDominates(cands, score, ranking, k);
    PrefixTieBreak(cands, score, ranking, k);
    PrefixTieOrder(cands, score, ranking, k);
    var features := Names(ranking[..k]);
    forall i, j | 0 <= i < j < |features| ensures score(features[i]) >= score(features[j]) {
      assert Before(ranking[i], ranking[j]);
    }
  }

  /**
   * The top-`TopK` list is determined: two lists that both meet `IsTopK`
   * are the same list, names and order alike.
   */
  lemma TopKUnique(cands: seq<ColName>, score: ColName -> real, f1: seq<ColName>, f2: seq<ColName>)
    requires Distinct(cands)
    requires IsTopK(cands, score, f1) && IsTopK(cands, score, f2)
    ensures f1 == f2
  {
    TopKSubset(cands, score, f1, f2);
    TopKSubset(cands, score, f2, f1);
    TopKOrderAgrees(cands, score, f1, f2);
    SameOrderEqual(f1, f2);
  }

  /** Every name of one top list is in the other: a name only one of them kept would tie with one only the other kept. */
  lemma TopKSubset(cands: seq<ColName>, score: ColName -> real, f1: seq<ColName>, f2: seq<ColName>)
    requires IsTopK(cands, score, f1) && IsTopK(cands, score, f2)
    ensures forall x | x in f1 :: x in f2
  {
    forall x | x in f1 ensures x in f2 {
      if x !in f2 {
        var y := Outsider(f1, f2, x);
      }
    }
  }

  /** Two repeat-free lists of one length: a name in the first but not the second leaves one in the second but not the first. */
  lemma Outsider(f1: seq<ColName>, f2: seq<ColName>, x: ColName) returns (y: ColName)
    requires Distinct(f1) && Distinct(f2) && |f1| == |f2|
    requires x in f1 && x !in f2
    ensures y in f2 && y !in f1
  {
    DistinctCardinality(f1);
    DistinctCardinality(f2);
    var e1, e2 := Elems(f1), Elems(f2);
    var common := e1 * e2;
    assert x in e1 - e2;
    assert e1 - e2 == {x} + (e1 - e2 - {x});
    assert e1 == common + (e1 - e2);
    assert e2 == common + (e2 - e1);
    assert |e2 - e1| > 0;
    var z :| z in e2 - e1;
    y := z;
  }

  /** Both top lists order any two shared names alike: by score, and by column order on a tie. */
  lemma TopKOrderAgrees(cands: seq<ColName>, score: ColName -> real, f1: seq<ColName>, f2: seq<ColName>)
    requires IsTopK(cands, score, f1) && IsTopK(cands, score, f2)
    ensures OrdersAlike(f1, f2)
  {
    forall p, q, p2, q2 |
      && 0 <= p < |f1| && 0 <= q < |f1| && 0 <= p2 < |f2| && 0 <= q2 < |f2|
      && f1[p] == f2[p2] && f1[q] == f2[q2] && p < q
      ensures p2 < q2
    {
      assert f1[p] in cands && f1[q] in cands;
    }
  }

  /** Any two names both lists hold stand in the same order in each. */
  predicate OrdersAlike(a: seq<ColName>, b: seq<ColName>) {
    forall p, q, p2, q2 |
      && 0 <= p < |a| && 0 <= q < |a| && 0 <= p2 < |b| && 0 <= q2 < |b|
      && a[p] == b[p2] && a[q] == b[q2] && p < q ::
      p2 < q2
  }

  /** Two repeat-free lists of the same names that order every pair alike are equal. */
  lemma {:induction false} SameOrderEqual(a: seq<ColName>, b: seq<ColName>)
    requires Distinct(a) && Distinct(b) && |a| == |b|
    requires forall x | x in a :: x in b
    requires forall x | x in b :: x in a
    requires OrdersAlike(a, b)
    ensures a == b
  {
    if |a| > 0 {
      HeadsAgree(a, b);
      TailMembers(a, b);
      TailMembers(b, a);
      TailOrders(a, b);
      SameOrderEqual(a[1..], b[1..]);
      assert a == [a[0]] + a[1..];
      assert b == [b[0]] + b[1..];
    }
  }

  /** Lists of the same names ordered alike start with the same name. */
  lemma HeadsAgree(a: seq<ColName>, b: seq<ColName>)
    requires |a| > 0 && |b| > 0
    requires a[0] in b && b[0] in a
    requires OrdersAlike(a, b)
    ensures a[0] == b[0]
  {
    var p2 :| 0 <= p2 < |b| && b[p2] == a[0];
    var q :| 0 <= q < |a| && a[q] == b[0];
    assert 0 < q ==> p2 < 0;
  }

  /** Past a shared first name, every other name of `a` is still in the rest of `b`. */
  lemma TailMembers(a: seq<ColName>, b: seq<ColName>)
    requires |a| > 0 && |b| > 0 && a[0] == b[0]
    requires Distinct(a)
    requires forall x | x in a :: x in b
    ensures Distinct(a[1..])
    ensures forall x | x in a[1..] :: x in b[1..]
  {
    forall x | x in a[1..] ensures x in b[1..] {
      var k :| 0 <= k < |a| - 1 && a[1..][k] == x;
      assert a[k + 1] == x && x in a;
      var k2 :| 0 <= k2 < |b| && b[k2] == x;
      assert b[1..][k2 - 1] == x;
    }
  }

  /** Dropping the first names keeps the order agreement. */
  lemma TailOrders(a: seq<ColName>, b: seq<ColName>)
    requires |a| > 0 && |b| > 0
    requires OrdersAlike(a, b)
    ensures OrdersAlike(a[1..], b[1..])
  {
    var a', b' := a[1..], b[1..];
    forall p, q, p2, q2 |
      && 0 <= p < |a'| && 0 <= q < |a'| && 0 <= p2 < |b'| && 0 <= q2 < |b'|
      && a'[p] == b'[p2] && a'[q] == b'[q2] && p < q
      ensures p2 < q2
    {
      assert a[p + 1] == b[p2 + 1] && a[q + 1] == b[q2 + 1];
    }
  }

  /**
   * `select_features`: dropping the target raises `KeyError` when the frame
   * has none; otherwise the candidates are ranked by score and the top
   * `TopK` kept.
   */
  function SelectFeatures(t: Frame, score: ColName -> real): (r: Result<Selection, Error>)
    ensures r.Failure? <==> Target !in t.columns
    ensures r.Failure? ==> r.error == KeyError(Target)
    ensures r.Success? ==> IsTopK(Candidates(t), score, r.value.features)
    ensures r.Success? ==> Ranked(r.value.ranking) && |r.value.ranking| == |Candidates(t)|
    ensures r.Success? ==> r.value.features == Names(r.value.ranking[..Min(TopK, |Candidates(t)|)])
    ensures r.Success? ==> forall y :: y in r.value.ranking <==> y in Enumerate(Candidates(t), score)
  {
    if Target !in t.columns then Failure(KeyError(Target))
    else
      var cands := Candidates(t);
      var ranking := Rank(Enumerate(cands, score));
      RankPrefixIsTopK(cands, score, ranking);
      Success(Selection(Names(ranking[..Min(TopK, |cands|)]), ranking))
  }

  /** The target is never among the selected features. */
  lemma TargetNeverSelected(t: Frame, score: ColName -> real)
    requires SelectFeatures(t, score).Success?
    ensures Target !in SelectFeatures(t, score).value.features
  {
  }

  // ---------------------------------------------------------------------------
  // Projection

  /** Where `df[c] = y` puts the target among `selected`. */
  function WithTarget(selected: seq<ColName>): seq<ColName> {
    if Target in selected then selected else selected + [Target]
  }

  /**
   * `save_selected_features`: `X[selected]` raises `KeyError` for a name `X`
   * lacks; otherwise the selected columns, in the given order, followed by
   * the target column filled from `y` row by row.
   */
  function SaveSelectedFeatures(x: Frame, y: seq<Cell>, selected: seq<ColName>): (r: Result<Frame, Error>)
    requires |y| == |x.rows|
    requires Distinct(selected)
    ensures r.Failure? <==> exists s | s in selected :: s !in x.columns
    ensures r.Failure? ==> r.error.KeyError? && r.error.column in selected && r.error.column !in x.columns
    ensures r.Success? ==> r.value.columns == WithTarget(selected)
    ensures r.Success? ==> |r.value.rows| == |x.rows|
    ensures r.Success? ==> forall s | s in selected && s != Target :: Column(r.value, s) == Column(x, s)
    ensures r.Success? ==> Column(r.value, Target) == y
  {
    match FirstAbsent(x, selected)
    case Some(s) => Failure(KeyError(s))
    case None =>
      var cols := WithTarget(selected);
      assert Distinct(cols) by {
        if Target !in selected {
          forall i, j | 0 <= i < j < |cols| ensures cols[i] != cols[j] {
            if j == |selected| {
              assert cols[i] in selected;
            }
          }
        }
      }
      var rows := seq(|x.rows|, i requires 0 <= i < |x.rows| =>
        (map s | s in selected :: CellOf(x, i, s); x.rows[i][s])[Target := y[i]]);
      assert forall i | 0 <= i < |rows| :: rows[i].Keys == set d | d in cols;
      var u: Frame := Table(cols, rows);
      Success(u)
  }

  // ---------------------------------------------------------------------------
  // The stage

  datatype Engineered = Engineered(files: FileSystem, selection: Selection, data: Frame)

  /**
   * `out` is what the stage writes for dataset `t`: the top features, in
   * rank order, and then the target, with every row's cells carried over.
   */
  predicate EngineeredFrom(t: Frame, score: ColName -> real, features: seq<ColName>, out: Frame) {
    && Target in t.columns
    && IsTopK(Candidates(t), score, features)
    && out.columns == features + [Target]
    && |out.rows| == |t.rows|
    && Column(out, Target) == Column(t, Target)
    && forall f | f in features :: f in t.columns && Column(out, f) == Column(t, f)
  }

  /** The written file's columns are determined by the dataset and the scores, ties included. */
  lemma EngineeredColumnsDetermined(t: Frame, score: ColName -> real, f1: seq<ColName>, out1: Frame, f2: seq<ColName>, out2: Frame)
    requires EngineeredFrom(t, score, f1, out1) && EngineeredFrom(t, score, f2, out2)
    ensures f1 == f2
    ensures out1.columns == out2.columns
  {
    TopKUnique(Candidates(t), score, f1, f2);
  }

  /**
   * The stage as `main` runs it: load the processed dataset, select, project
   * and write. It fails exactly when the input file is missing or has no
   * target column.
   */
  function Run(fs: FileSystem, inPath: string, outPath: string, score: ColName -> real): (r: Result<Engineered, Error>)
    ensures r.Failure? <==> inPath !in fs || Target !in fs[inPath].columns
    ensures inPath !in fs ==> r == Failure(FileNotFound(inPath))
    ensures r.Success? ==>
      && r.value.files == fs[outPath := r.value.data]
      && EngineeredFrom(fs[inPath], score, r.value.selection.features, r.value.data)
  {
    match LoadData(fs, inPath)
    case Failure(err) => Failure(err)
    case Success(t) =>
      match Engineer(t, score)
      case Failure(err) => Failure(err)
      case Success(pair) =>
        Success(Engineered(fs[outPath := pair.1], pair.0, pair.1))
  }

  /** Selection, then projection of the selected features and the target. */
  function Engineer(t: Frame, score: ColName -> real): (r: Result<(Selection, Frame), Error>)
    ensures r.Failure? <==> Target !in t.columns
    ensures r.Success? ==> EngineeredFrom(t, score, r.value.0.features, r.value.1)
  {
    match SelectFeatures(t, score)
    case Failure(err) => Failure(err)
    case Success(sel) =>
      var x := DropColumn(t, Target);
      var y := Column(t, Target);
      SelectedProjectable(t, score, sel.features);
      match SaveSelectedFeatures(x, y, sel.features)
      case Failure(err) => Failure(err)
      case Success(out) =>
        ProjectedFrom(t, score, sel.features, out);
        Success((sel, out))
  }

  /** The selected features are distinct columns of the frame without its target. */
  lemma SelectedProjectable(t: Frame, score: ColName -> real, features: seq<ColName>)
    requires Target in t.columns && IsTopK(Candidates(t), score, features)
    ensures Distinct(features)
    ensures forall f | f in features :: f in DropColumn(t, Target).columns
    ensures Target !in features
  {
  }

  /** Projecting the top features and the target gives what the stage promises to write. */
  lemma ProjectedFrom(t: Frame, score: ColName -> real, features: seq<ColName>, out: Frame)
    requires Target in t.columns && IsTopK(Candidates(t), score, features)
    requires Target !in features
    requires forall f | f in features :: f in DropColumn(t, Target).columns
    requires out.columns == WithTarget(features)
    requires |out.rows| == |t.rows|
    requires forall f | f in features && f != Target :: Column(out, f) == Column(DropColumn(t, Target), f)
    requires Column(out, Target) == Column(t, Target)
    ensures EngineeredFrom(t, score, features, out)
  {
  }
}
