/**
 * The preprocessing stage: load the raw dataset, drop incomplete rows,
 * label-encode the categorical columns, standardize the numerical ones and
 * write the result.
 */
module Preprocessing {
  import opened Wrappers
  import opened Seqs
  import opened Tables
  import opened Order

  const CategoricalCols: seq<ColName> :=
    ["job", "marital", "education", "default", "housing", "loan", "contact", "month", "poutcome"]
  const NumericalCols: seq<ColName> :=
    ["age", "balance", "day", "duration", "campaign", "pdays", "previous"]

  /** Encoding and scaling work on separate columns, and neither list repeats a name. */
  lemma ColumnListsDisjoint()
    ensures forall c | c in CategoricalCols :: c !in NumericalCols
    ensures Distinct(CategoricalCols) && Distinct(NumericalCols)
  {
  }

  // ---------------------------------------------------------------------------
  // Cleaning

  /** Positions of the rows that have a missing field. */
  function MissingRows(rows: seq<Row>): set<int> {
    set i | 0 <= i < |rows| && HasMissing(rows[i])
  }

  /** `dropna`: keep the complete rows, in order. */
  function DropNa(rows: seq<Row>): (r: seq<Row>)
    ensures forall i | 0 <= i < |r| :: !HasMissing(r[i])
  {
    if |rows| == 0 then []
    else
      var kept := DropNa(rows[..|rows| - 1]);
      var last := rows[|rows| - 1];
      if HasMissing(last) then kept else kept + [last]
  }

  lemma {:induction false} DropNaMultiset(rows: seq<Row>)
    ensures forall x :: multiset(DropNa(rows))[x] == if HasMissing(x) then 0 else multiset(rows)[x]
  {
    if |rows| > 0 {
      var init := rows[..|rows| - 1];
      DropNaMultiset(init);
      assert rows == init + [rows[|rows| - 1]];
    }
  }

  lemma {:induction false} DropNaSubsequence(rows: seq<Row>)
    ensures Subsequence(DropNa(rows), rows)
  {
    if |rows| > 0 {
      var init := rows[..|rows| - 1];
      var last := rows[|rows| - 1];
      var kept := DropNa(init);
      var r := DropNa(rows);
      DropNaSubsequence(init);
      if HasMissing(last) {
        if |r| > 0 {
          assert r[|r| - 1] != last;
        }
      } else {
        assert r[..|r| - 1] == kept;
      }
    }
  }

  lemma {:induction false} DropNaCount(rows: seq<Row>)
    ensures |DropNa(rows)| == |rows| - |MissingRows(rows)|
  {
    if |rows| > 0 {
      var init := rows[..|rows| - 1];
      var last := rows[|rows| - 1];
      DropNaCount(init);
      if HasMissing(last) {
        assert MissingRows(rows) == MissingRows(init) + {|rows| - 1};
      } else {
        assert MissingRows(rows) == MissingRows(init);
      }
    }
  }

  /** Every kept row is one of the input rows. */
  lemma DropNaKeepsRows(rows: seq<Row>)
    ensures forall i | 0 <= i < |DropNa(rows)| :: DropNa(rows)[i] in rows
  {
    var kept := DropNa(rows);
    DropNaMultiset(rows);
    forall i | 0 <= i < |kept| ensures kept[i] in rows {
      assert kept[i] in multiset(kept);
    }
  }

  /**
   * `clean_data`: drops every row with at least one missing field and keeps
   * the others in their original order, with their multiplicities.
   */
  function CleanData(t: Frame): (r: Frame)
    ensures r.columns == t.columns
    ensures forall i | 0 <= i < |r.rows| :: !HasMissing(r.rows[i])
    ensures forall x :: multiset(r.rows)[x] == if HasMissing(x) then 0 else multiset(t.rows)[x]
    ensures Subsequence(r.rows, t.rows)
    ensures |r.rows| == |t.rows| - |MissingRows(t.rows)|
  {
    var rows := DropNa(t.rows);
    DropNaMultiset(t.rows);
    DropNaSubsequence(t.rows);
    DropNaCount(t.rows);
    DropNaKeepsRows(t.rows);
    Table(t.columns, rows)
  }

  // ---------------------------------------------------------------------------
  // Label encoding

  /** A fitted label encoder: its classes, in the order that gives their codes. */
  datatype LabelEncoder = LabelEncoder(classes: seq<Cell>)

  /** `e` is fitted to `col`: its classes are the column's distinct cells in ascending order. */
  predicate FittedTo(e: LabelEncoder, col: seq<Cell>) {
    && StrictlySorted(e.classes)
    && (forall y | y in e.classes :: y in col)
    && (forall y | y in col :: y in e.classes)
  }

  /** An encoder fitted to a column has one class per distinct cell of it. */
  lemma FittedClassCount(e: LabelEncoder, col: seq<Cell>)
    requires FittedTo(e, col)
    ensures |e.classes| == |Elems(col)|
  {
    ClassesLength(e.classes, col);
  }

  /** A column holding both numbers and strings, which the encoder refuses to sort. */
  predicate MixedKinds(col: seq<Cell>) {
    exists i, j | 0 <= i < |col| && 0 <= j < |col| :: IsNumber(col[i]) && IsString(col[j])
  }

  /** A cell holding the integer code `k` for some `0 <= k < n`. */
  predicate IsCode(c: Cell, n: nat) {
    c.Some? && c.value.Num? && c.value.x.Floor as real == c.value.x && 0 <= c.value.x.Floor < n
  }

  /** `fit`: learns the sorted distinct cells of a column; a number/string mix raises. */
  function FitEncoder(name: ColName, col: seq<Cell>): (r: Result<LabelEncoder, Error>)
    ensures r.Failure? <==> MixedKinds(col)
    ensures r.Failure? ==> r.error == TypeError(name)
    ensures r.Success? ==> StrictlySorted(r.value.classes)
    ensures r.Success? ==> forall y :: y in r.value.classes <==> y in col
    ensures r.Success? ==> |r.value.classes| == |Elems(col)|
  {
    if MixedKinds(col) then Failure(TypeError(name))
    else
      var classes := Classes(col);
      StrictlySortedDistinct(classes);
      DistinctCardinality(classes);
      assert Elems(classes) == Elems(col);
      Success(LabelEncoder(classes))
  }

  /** `transform`: the code of a learned cell is its position among the classes. */
  function Transform(e: LabelEncoder, x: Cell): (code: Cell)
    requires x in e.classes
    ensures IsCode(code, |e.classes|)
  {
    Some(Num(IndexOf(e.classes, x) as real))
  }

  /** `inverse_transform`: a code in range maps back to its class; anything else is unseen. */
  function InverseTransform(e: LabelEncoder, code: Cell): (r: Option<Cell>)
    ensures r.Some? <==> IsCode(code, |e.classes|)
    ensures r.Some? ==> r.value in e.classes
  {
    if IsCode(code, |e.classes|) then Some(e.classes[code.value.x.Floor]) else None
  }

  /** Decoding a transformed cell gives the cell back. */
  lemma TransformRoundTrip(e: LabelEncoder, x: Cell)
    requires StrictlySorted(e.classes) && x in e.classes
    ensures InverseTransform(e, Transform(e, x)) == Some(x)
  {
    StrictlySortedDistinct(e.classes);
  }

  /** Each cell of `codes` decodes under `e` to the cell at the same row of `orig`. */
  predicate Decodes(e: LabelEncoder, codes: seq<Cell>, orig: seq<Cell>) {
    && |codes| == |orig|
    && forall i | 0 <= i < |codes| :: InverseTransform(e, codes[i]) == Some(orig[i])
  }

  /** Equal cells before iff equal cells after: the recoding loses no distinction. */
  predicate Injectively(before: seq<Cell>, after: seq<Cell>) {
    && |before| == |after|
    && forall i, j | 0 <= i < |before| && 0 <= j < |before| :: after[i] == after[j] <==> before[i] == before[j]
  }

  predicate CodesBelow(col: seq<Cell>, n: nat) {
    forall i | 0 <= i < |col| :: IsCode(col[i], n)
  }

  /** A round trip through the encoder gives codes in range that keep every distinction. */
  lemma DecodesProperties(e: LabelEncoder, codes: seq<Cell>, orig: seq<Cell>)
    requires Distinct(e.classes)
    requires Decodes(e, codes, orig)
    ensures CodesBelow(codes, |e.classes|)
    ensures Injectively(orig, codes)
  {
    forall i, j | 0 <= i < |orig| && 0 <= j < |orig| && orig[i] == orig[j]
      ensures codes[i] == codes[j]
    {
      assert InverseTransform(e, codes[i]) == Some(orig[i]);
      assert InverseTransform(e, codes[j]) == Some(orig[j]);
      var ki, kj := codes[i].value.x.Floor, codes[j].value.x.Floor;
      assert e.classes[ki] == e.classes[kj];
      assert ki == kj;
    }
  }

  lemma CodesNotMixed(col: seq<Cell>, n: nat)
    requires CodesBelow(col, n)
    ensures !MixedKinds(col)
  {
  }

  /** Same columns and rows, and every column outside `touched` is left as it was. */
  predicate SameOutside(t: Frame, u: Frame, touched: set<ColName>) {
    && u.columns == t.columns
    && |u.rows| == |t.rows|
    && forall d | d in t.columns && d !in touched :: Column(u, d) == Column(t, d)
  }

  /** One `le.fit_transform(df[col])` followed by `df[col] = ...`. */
  function EncodeColumn(t: Frame, c: ColName): (r: Result<(Frame, LabelEncoder), Error>)
    ensures r.Failure? <==> c !in t.columns || MixedKinds(Column(t, c))
    ensures r.Failure? ==> r.error == if c in t.columns then TypeError(c) else KeyError(c)
    ensures r.Success? ==> SameOutside(t, r.value.0, {c})
    ensures r.Success? ==> StrictlySorted(r.value.1.classes)
    ensures r.Success? ==> forall y :: y in r.value.1.classes <==> y in Column(t, c)
    ensures r.Success? ==> Decodes(r.value.1, Column(r.value.0, c), Column(t, c))
  {
    if c !in t.columns then Failure(KeyError(c))
    else
      var col := Column(t, c);
      match FitEncoder(c, col)
      case Failure(err) => Failure(err)
      case Success(e) =>
        var codes := seq(|col|, i requires 0 <= i < |col| => Transform(e, col[i]));
        var u := Assign(t, c, codes);
        assert Column(u, c) == codes;
        forall i | 0 <= i < |col|
          ensures InverseTransform(e, codes[i]) == Some(col[i])
        {
          TransformRoundTrip(e, col[i]);
        }
        assert forall d | d in t.columns && d != c :: Column(u, d) == Column(t, d);
        Success((u, e))
  }

  /**
   * What encoding the columns `cols` of `t` one after the other leaves: the
   * other columns untouched, one encoder per listed column, and in each
   * listed column codes in range of its encoder that keep exactly the
   * distinctions of the original cells; with no column listed twice, every
   * code also decodes to the original cell. Every listed column was present
   * and free of a number/string mix.
   */
  predicate EncodedFrom(t: Frame, u: Frame, cols: seq<ColName>, encoders: map<ColName, LabelEncoder>) {
    && (forall c | c in cols :: c in t.columns && !MixedKinds(Column(t, c)))
    && SameOutside(t, u, Elems(cols))
    && encoders.Keys == Elems(cols)
    && (forall c | c in cols ::
          && Injectively(Column(t, c), Column(u, c))
          && CodesBelow(Column(u, c), |encoders[c].classes|))
    && (Distinct(cols) ==> EncodersFit(t, u, cols, encoders))
  }

  /**
   * Each listed column's encoder is fitted to the column's original cells,
   * and its new codes decode back to those cells: every cell is coded by
   * its position among the sorted distinct cells.
   */
  predicate EncodersFit(t: Frame, u: Frame, cols: seq<ColName>, encoders: map<ColName, LabelEncoder>) {
    forall c | c in cols ::
      && c in encoders && c in t.columns && c in u.columns
      && FittedTo(encoders[c], Column(t, c))
      && Decodes(encoders[c], Column(u, c), Column(t, c))
  }

  lemma SameOutsideTrans(t: Frame, u: Frame, v: Frame, a: set<ColName>, b: set<ColName>)
    requires SameOutside(t, u, a) && SameOutside(u, v, b)
    ensures SameOutside(t, v, a + b)
  {
  }

  lemma InjectivelyTrans(a: seq<Cell>, b: seq<Cell>, c: seq<Cell>)
    requires Injectively(a, b) && Injectively(b, c)
    ensures Injectively(a, c)
  {
  }

  lemma EncodedFromEmpty(t: Frame)
    ensures EncodedFrom(t, t, [], map[])
  {
    assert Elems<ColName>([]) == {};
  }

  /** Encoding one more column extends what the earlier encodings established. */
  lemma EncodedFromStep(t: Frame, u: Frame, init: seq<ColName>, encoders: map<ColName, LabelEncoder>,
                        c: ColName, v: Frame, e: LabelEncoder)
    requires EncodedFrom(t, u, init, encoders)
    requires c in u.columns && !MixedKinds(Column(u, c))
    requires SameOutside(u, v, {c})
    requires FittedTo(e, Column(u, c))
    requires Decodes(e, Column(v, c), Column(u, c))
    ensures EncodedFrom(t, v, init + [c], encoders[c := e])
  {
    var cols := init + [c];
    var encoders' := encoders[c := e];
    assert Elems(cols) == Elems(init) + {c};
    StrictlySortedDistinct(e.classes);
    DecodesProperties(e, Column(v, c), Column(u, c));
    SameOutsideTrans(t, u, v, Elems(init), {c});
    assert c !in init ==> Column(u, c) == Column(t, c);
    assert forall d | d in cols :: d in t.columns && !MixedKinds(Column(t, d));
    assert encoders'.Keys == Elems(cols);
    forall d | d in cols
      ensures Injectively(Column(t, d), Column(v, d))
      ensures CodesBelow(Column(v, d), |encoders'[d].classes|)
    {
      if d == c {
        if c !in init {
          assert Column(u, c) == Column(t, c);
        } else {
          InjectivelyTrans(Column(t, c), Column(u, c), Column(v, c));
        }
      } else {
        assert d in init;
        assert Column(v, d) == Column(u, d);
      }
    }
    if Distinct(cols) {
      EncodersFitStep(t, u, init, encoders, c, v, e);
    }
  }

  /** With no column listed twice, the new column's encoder joins the earlier ones, which stay fitted. */
  lemma EncodersFitStep(t: Frame, u: Frame, init: seq<ColName>, encoders: map<ColName, LabelEncoder>,
                        c: ColName, v: Frame, e: LabelEncoder)
    requires Distinct(init + [c])
    requires Distinct(init) ==> EncodersFit(t, u, init, encoders)
    requires SameOutside(t, u, Elems(init)) && SameOutside(u, v, {c})
    requires c in u.columns
    requires FittedTo(e, Column(u, c))
    requires Decodes(e, Column(v, c), Column(u, c))
    ensures EncodersFit(t, v, init + [c], encoders[c := e])
  {
    var cols := init + [c];
    assert c !in init by {
      forall k | 0 <= k < |init| ensures init[k] != c {
        assert cols[k] != cols[|init|];
      }
    }
    assert Distinct(init) by {
      forall i, j | 0 <= i < j < |init| ensures init[i] != init[j] {
        assert cols[i] != cols[j];
      }
    }
    assert Column(u, c) == Column(t, c);
    forall d | d in init
      ensures Column(v, d) == Column(u, d)
    {
    }
  }

  /** A column the label encoder cannot take: absent, or a mix of numbers and strings. */
  predicate Unencodable(t: Frame, c: ColName) {
    c !in t.columns || MixedKinds(Column(t, c))
  }

  /** Encoding fails at the first listed column that is absent or holds a number/string mix. */
  lemma EncodeFailStep(t: Frame, u: Frame, init: seq<ColName>, encoders: map<ColName, LabelEncoder>, c: ColName)
    requires EncodedFrom(t, u, init, encoders)
    ensures Unencodable(u, c) <==> Unencodable(t, c)
  {
    if c in init {
      CodesNotMixed(Column(u, c), |encoders[c].classes|);
    } else if c in t.columns {
      assert Column(u, c) == Column(t, c);
    }
  }

  lemma UnencodableSnoc(t: Frame, init: seq<ColName>, c: ColName)
    ensures (exists k | 0 <= k < |init + [c]| :: Unencodable(t, (init + [c])[k])) <==>
      (exists k | 0 <= k < |init| :: Unencodable(t, init[k])) || Unencodable(t, c)
  {
    if exists k | 0 <= k < |init| :: Unencodable(t, init[k]) {
      var k :| 0 <= k < |init| && Unencodable(t, init[k]);
      assert (init + [c])[k] == init[k];
    }
    if Unencodable(t, c) {
      assert (init + [c])[|init|] == c;
    }
  }

  /**
   * `encode_categorical_features`: encodes the listed columns one after the
   * other and keeps the last encoder fitted for each.
   */
  function EncodeCategoricalFeatures(t: Frame, cols: seq<ColName>): (r: Result<(Frame, map<ColName, LabelEncoder>), Error>)
    ensures r.Failure? <==> exists k | 0 <= k < |cols| :: Unencodable(t, cols[k])
    ensures r.Failure? ==> (r.error.KeyError? || r.error.TypeError?) && r.error.column in cols
    ensures r.Success? ==> EncodedFrom(t, r.value.0, cols, r.value.1)
    decreases |cols|
  {
    if |cols| == 0 then
      EncodedFromEmpty(t);
      Success((t, map[]))
    else
      var init := cols[..|cols| - 1];
      var c := cols[|cols| - 1];
      assert cols == init + [c];
      UnencodableSnoc(t, init, c);
      match EncodeCategoricalFeatures(t, init)
      case Failure(err) => Failure(err)
      case Success((u, encoders)) =>
        EncodeFailStep(t, u, init, encoders, c);
        match EncodeColumn(u, c)
        case Failure(err) => Failure(err)
        case Success((v, e)) =>
          EncodedFromStep(t, u, init, encoders, c, v, e);
          Success((v, encoders[c := e]))
  }

  // ---------------------------------------------------------------------------
  // Scaling

  /**
   * A standardized cell: a number goes through the column's fitted transform,
   * a missing cell stays missing.
   */
  function ScaleCell(c: ColName, x: Cell, standardize: (ColName, real) -> real): Cell {
    match x
    case Some(Num(v)) => Some(Num(standardize(c, v)))
    case _ => x
  }

  /** The first listed column holding a string. */
  function FirstWithString(t: Frame, cols: seq<ColName>): (r: Option<ColName>)
    requires forall k | 0 <= k < |cols| :: cols[k] in t.columns
    ensures r.None? <==> forall k | 0 <= k < |cols| :: !HasString(Column(t, cols[k]))
    ensures r.Some? ==> r.value in cols && r.value in t.columns && HasString(Column(t, r.value))
  {
    if |cols| == 0 then None
    else if HasString(Column(t, cols[0])) then Some(cols[0])
    else FirstWithString(t, cols[1..])
  }

  /**
   * `scale_features`: selecting an absent column raises `KeyError`; a string
   * cell, an empty list of columns (no feature to fit) or a frame without
   * rows makes the scaler's `fit` raise `ValueError`; otherwise the listed columns are standardized cell by cell
   * and nothing else changes.
   */
  function ScaleFeatures(t: Frame, cols: seq<ColName>, standardize: (ColName, real) -> real): (r: Result<Frame, Error>)
    ensures r.Failure? <==>
      || (exists k | 0 <= k < |cols| :: cols[k] !in t.columns || HasString(Column(t, cols[k])))
      || |cols| == 0 || |t.rows| == 0
    ensures r.Failure? && (exists k | 0 <= k < |cols| :: cols[k] !in t.columns) ==> r.error.KeyError?
    ensures r.Failure? && (forall k | 0 <= k < |cols| :: cols[k] in t.columns) ==> r.error.ValueError?
    ensures r.Success? ==> SameOutside(t, r.value, Elems(cols))
    ensures r.Success? ==> forall c, i | c in cols && 0 <= i < |t.rows| ::
      && (Column(t, c)[i].None? ==> Column(r.value, c)[i].None?)
      && (Column(t, c)[i].Some? ==> Column(r.value, c)[i] == Some(Num(standardize(c, Column(t, c)[i].value.x))))
  {
    match FirstAbsent(t, cols)
    case Some(c) => Failure(KeyError(c))
    case None =>
      match FirstWithString(t, cols)
      case Some(c) => Failure(ValueError(c))
      case None =>
        if |cols| == 0 then Failure(ValueError(""))
        else if |t.rows| == 0 then Failure(ValueError(""))
        else
        var rows := seq(|t.rows|, i requires 0 <= i < |t.rows| =>
          map d | d in t.rows[i] :: if d in cols then ScaleCell(d, t.rows[i][d], standardize) else t.rows[i][d]);
        var u: Frame := Table(t.columns, rows);
        assert forall d | d in t.columns && d !in cols :: Column(u, d) == Column(t, d);
        forall c, i | c in cols && 0 <= i < |t.rows|
          ensures Column(t, c)[i].Some? ==> Column(u, c)[i] == Some(Num(standardize(c, Column(t, c)[i].value.x)))
        {
          var k :| 0 <= k < |cols| && cols[k] == c;
          assert !HasString(Column(t, c));
          assert !IsString(Column(t, c)[i]);
        }
        Success(u)
  }

  // ---------------------------------------------------------------------------
  // The stage

  /** A column the scaler cannot fit: absent, or holding a string. */
  predicate Unscalable(t: Frame, c: ColName) {
    c !in t.columns || HasString(Column(t, c))
  }

  /**
   * The inputs the stage rejects once loaded: after cleaning, a categorical
   * column is absent or mixes numbers and strings, or a numerical column is
   * absent or holds a string, or no complete row is left.
   */
  predicate Rejected(raw: Frame) {
    EncodingRejects(CleanData(raw)) || ScalingRejects(CleanData(raw))
  }

  /** A categorical column of the cleaned frame is absent or mixes numbers and strings. */
  predicate EncodingRejects(cleaned: Frame) {
    exists k | 0 <= k < |CategoricalCols| :: Unencodable(cleaned, CategoricalCols[k])
  }

  /** A numerical column of the cleaned frame is absent or holds a string, or the frame has no row. */
  predicate ScalingRejects(cleaned: Frame) {
    || (exists k | 0 <= k < |NumericalCols| :: Unscalable(cleaned, NumericalCols[k]))
    || |cleaned.rows| == 0
  }

  /** What the stage returns and leaves behind. */
  datatype Preprocessed = Preprocessed(files: FileSystem, data: Frame, encoders: map<ColName, LabelEncoder>)

  /**
   * The columns the stage promises to find, and what it leaves in each: at
   * least one complete row; in each categorical column, codes of an encoder
   * fitted to the cleaned column that decode back to it; in each numerical
   * column, the cleaned cells through the transform; every other column as
   * cleaned.
   */
  predicate PreprocessedFrom(raw: Frame, out: Frame, encoders: map<ColName, LabelEncoder>, standardize: (ColName, real) -> real) {
    var cleaned := CleanData(raw);
    && out.columns == raw.columns
    && |out.rows| == |raw.rows| - |MissingRows(raw.rows)| > 0
    && StagedFrom(cleaned, out, encoders, standardize)
  }

  /** What encoding then scaling leave of the cleaned frame `cleaned`. */
  predicate StagedFrom(cleaned: Frame, out: Frame, encoders: map<ColName, LabelEncoder>, standardize: (ColName, real) -> real) {
    && out.columns == cleaned.columns
    && |out.rows| == |cleaned.rows| > 0
    && encoders.Keys == Elems(CategoricalCols)
    && (forall c | c in CategoricalCols ::
          && c in cleaned.columns
          && FittedTo(encoders[c], Column(cleaned, c))
          && Decodes(encoders[c], Column(out, c), Column(cleaned, c)))
    && (forall c | c in NumericalCols :: c in cleaned.columns)
    && (forall c, i | c in NumericalCols && c in cleaned.columns && 0 <= i < |cleaned.rows| ::
          Column(out, c)[i] == ScaleCell(c, Column(cleaned, c)[i], standardize))
    && (forall d | d in cleaned.columns && d !in CategoricalCols && d !in NumericalCols ::
          Column(out, d) == Column(cleaned, d))
  }

  /** Encoding and scaling touch separate columns, so the encoded codes survive scaling. */
  lemma StagesCompose(cleaned: Frame, encoded: Frame, encoders: map<ColName, LabelEncoder>, scaled: Frame,
                      standardize: (ColName, real) -> real)
    requires EncodedFrom(cleaned, encoded, CategoricalCols, encoders)
    requires SameOutside(encoded, scaled, Elems(NumericalCols))
    requires |encoded.rows| > 0
    requires forall c | c in NumericalCols :: c in encoded.columns
    requires forall c, i | c in NumericalCols && 0 <= i < |encoded.rows| ::
      Column(scaled, c)[i] == ScaleCell(c, Column(encoded, c)[i], standardize)
    ensures StagedFrom(cleaned, scaled, encoders, standardize)
  {
    ColumnListsDisjoint();
    forall c | c in CategoricalCols
      ensures c in cleaned.columns && Decodes(encoders[c], Column(scaled, c), Column(cleaned, c))
    {
      assert Column(scaled, c) == Column(encoded, c);
    }
    forall c | c in NumericalCols
      ensures Column(encoded, c) == Column(cleaned, c)
    {
    }
    forall d | d in cleaned.columns && d !in CategoricalCols && d !in NumericalCols
      ensures Column(scaled, d) == Column(cleaned, d)
    {
      assert Column(scaled, d) == Column(encoded, d);
    }
  }

  /** A scaled cell is what the scaling step's cell-by-cell promise says it is. */
  lemma ScaledCell(c: ColName, x: Cell, y: Cell, standardize: (ColName, real) -> real)
    requires !IsString(x)
    requires x.None? ==> y.None?
    requires x.Some? ==> y == Some(Num(standardize(c, x.value.x)))
    ensures y == ScaleCell(c, x, standardize)
  {
  }

  /**
   * `preprocess_data`: load, clean, encode, scale, in that order, then write
   * the result to `outPath`. A missing input file raises before anything
   * else happens, and an input without a complete row makes the scaler
   * raise; on success the row count is the cleaned count, the categorical
   * columns hold codes that decode to the cleaned cells, the numerical
   * columns hold the transformed cleaned cells, and the columns neither list
   * names are the cleaned ones.
   */
  function PreprocessData(fs: FileSystem, inPath: string, outPath: string, standardize: (ColName, real) -> real)
    : (r: Result<Preprocessed, Error>)
    ensures r.Failure? <==> inPath !in fs || Rejected(fs[inPath])
    ensures inPath !in fs ==> r == Failure(FileNotFound(inPath))
    ensures inPath in fs && |fs[inPath].rows| == |MissingRows(fs[inPath].rows)| ==> r.Failure?
    ensures r.Success? ==> inPath in fs
    ensures r.Success? ==> r.value.files == fs[outPath := r.value.data]
    ensures r.Success? ==> PreprocessedFrom(fs[inPath], r.value.data, r.value.encoders, standardize)
  {
    match LoadData(fs, inPath)
    case Failure(err) => Failure(err)
    case Success(raw) =>
      match Transformed(raw, standardize)
      case Failure(err) => Failure(err)
      case Success((scaled, encoders)) => Success(Preprocessed(fs[outPath := scaled], scaled, encoders))
  }

  /** Clean, encode and scale a loaded frame, in that order. */
  function Transformed(raw: Frame, standardize: (ColName, real) -> real): (r: Result<(Frame, map<ColName, LabelEncoder>), Error>)
    ensures r.Failure? <==> Rejected(raw)
    ensures r.Success? ==> PreprocessedFrom(raw, r.value.0, r.value.1, standardize)
  {
    var cleaned := CleanData(raw);
    match EncodeCategoricalFeatures(cleaned, CategoricalCols)
    case Failure(err) => Failure(err)
    case Success(pair) =>
      match ScaledAfterEncoding(cleaned, pair.0, pair.1, standardize)
      case Failure(err) => Failure(err)
      case Success(done) => Success(done)
  }

  /** The scaling step, on the encoded frame. */
  function ScaledAfterEncoding(cleaned: Frame, encoded: Frame, encoders: map<ColName, LabelEncoder>, standardize: (ColName, real) -> real)
    : (r: Result<(Frame, map<ColName, LabelEncoder>), Error>)
    requires EncodedFrom(cleaned, encoded, CategoricalCols, encoders)
    ensures r.Failure? <==> ScalingRejects(cleaned)
    ensures r.Success? ==> StagedFrom(cleaned, r.value.0, r.value.1, standardize)
  {
    UnscalableAfterEncoding(cleaned, encoded, encoders);
    match ScaleFeatures(encoded, NumericalCols, standardize)
    case Failure(err) => Failure(err)
    case Success(scaled) =>
      ScaledCells(encoded, scaled, standardize);
      StagesCompose(cleaned, encoded, encoders, scaled, standardize);
      Success((scaled, encoders))
  }

  /** The numerical columns after a successful scaling step, cell by cell. */
  lemma ScaledCells(encoded: Frame, scaled: Frame, standardize: (ColName, real) -> real)
    requires ScaleFeatures(encoded, NumericalCols, standardize) == Success(scaled)
    ensures |encoded.rows| > 0
    ensures forall c | c in NumericalCols :: c in encoded.columns
    ensures forall c, i | c in NumericalCols && 0 <= i < |encoded.rows| ::
      Column(scaled, c)[i] == ScaleCell(c, Column(encoded, c)[i], standardize)
  {
    forall c, i | c in NumericalCols && 0 <= i < |encoded.rows|
      ensures Column(scaled, c)[i] == ScaleCell(c, Column(encoded, c)[i], standardize)
    {
      var k :| 0 <= k < |NumericalCols| && NumericalCols[k] == c;
      assert !HasString(Column(encoded, c));
      ScaledCell(c, Column(encoded, c)[i], Column(scaled, c)[i], standardize);
    }
  }

  /** Encoding leaves the numerical columns and the row count as cleaning left them. */
  lemma UnscalableAfterEncoding(cleaned: Frame, encoded: Frame, encoders: map<ColName, LabelEncoder>)
    requires EncodedFrom(cleaned, encoded, CategoricalCols, encoders)
    ensures |encoded.rows| == |cleaned.rows|
    ensures forall k | 0 <= k < |NumericalCols| :: Unscalable(encoded, NumericalCols[k]) <==> Unscalable(cleaned, NumericalCols[k])
  {
    ColumnListsDisjoint();
    forall k | 0 <= k < |NumericalCols|
      ensures Unscalable(encoded, NumericalCols[k]) <==> Unscalable(cleaned, NumericalCols[k])
    {
      var c := NumericalCols[k];
      if c in cleaned.columns {
        assert c !in Elems(CategoricalCols);
        assert Column(encoded, c) == Column(cleaned, c);
      }
    }
  }
}
