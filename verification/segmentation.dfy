/**
 * Customer segmentation and campaign assignment of the A/B/C test. The
 * processed dataset is standardized, so `balance` and `previous` are
 * z-scores: "previous > 0" means more prior contacts than average.
 */
module Segmentation {
  import opened Wrappers
  import opened Seqs
  import opened Tables
  import opened Statistics

  const Balance: ColName := "balance"
  const Previous: ColName := "previous"
  const SegmentColumn: ColName := "customer_segment"
  const GroupColumn: ColName := "campaign_group"

  datatype Segment = General | HighBalance | ReturningCustomer {
    function Label(): string {
      match this
      case General => "General"
      case HighBalance => "High Balance"
      case ReturningCustomer => "Returning Customer"
    }
  }

  datatype Campaign = A | B | C {
    function Label(): string {
      match this
      case A => "A"
      case B => "B"
      case C => "C"
    }
  }

  /** Campaign group per segment; a returning customer falls through to the default group C. */
  function CampaignOf(s: Segment): Campaign {
    match s
    case HighBalance => A
    case General => B
    case ReturningCustomer => C
  }

  /** A cell read as a number; a missing cell reads as NaN (`None`). */
  function AsReal(c: Cell): Option<real> {
    match c
    case Some(Num(x)) => Some(x)
    case _ => None
  }

  function Reals(col: seq<Cell>): (r: seq<Option<real>>)
    ensures |r| == |col|
    ensures forall i | 0 <= i < |col| :: r[i] == AsReal(col[i])
  {
    seq(|col|, i requires 0 <= i < |col| => AsReal(col[i]))
  }

  /** `x >= m`, false when either side is NaN. */
  predicate AtLeast(x: Option<real>, m: Option<real>) {
    x.Some? && m.Some? && x.value >= m.value
  }

  /** `x > 0`, false for NaN. */
  predicate Positive(x: Option<real>) {
    x.Some? && x.value > 0.0
  }

  /**
   * The segment by precedence: prior contact above average makes a
   * returning customer whatever the balance; otherwise a balance at or above
   * the median makes a high-balance customer; everyone else is general.
   */
  function SegmentOf(balance: Option<real>, previous: Option<real>, median: Option<real>): Segment {
    if Positive(previous) then ReturningCustomer
    else if AtLeast(balance, median) then HighBalance
    else General
  }

  /** `df.loc[mask, col] = v` on one column of labels: later writes win. */
  function Overwrite(labels: seq<string>, mask: seq<bool>, v: string): (r: seq<string>)
    requires |mask| == |labels|
    ensures |r| == |labels|
    ensures forall i | 0 <= i < |labels| :: r[i] == if mask[i] then v else labels[i]
  {
    seq(|labels|, i requires 0 <= i < |labels| => if mask[i] then v else labels[i])
  }

  function LabelCells(labels: seq<string>): (r: seq<Cell>)
    ensures |r| == |labels|
    ensures forall i | 0 <= i < |labels| :: r[i] == Some(Str(labels[i]))
  {
    seq(|labels|, i requires 0 <= i < |labels| => Some(Str(labels[i])))
  }

  /** `u` is `t` with column `c` set: added on the right if new, every other column as it was. */
  predicate SetsColumn(t: Frame, u: Frame, c: ColName) {
    && u.columns == (if c in t.columns then t.columns else t.columns + [c])
    && |u.rows| == |t.rows|
    && forall d | d in t.columns && d != c :: Column(u, d) == Column(t, d)
  }

  lemma AssignSetsColumn(t: Frame, c: ColName, values: seq<Cell>)
    requires |values| == |t.rows|
    ensures SetsColumn(t, Assign(t, c, values), c)
    ensures Column(Assign(t, c, values), c) == values
  {
  }

  /** Reading a numeric column raises `KeyError` if it is absent and `TypeError` if it holds a string. */
  function NumericColumn(t: Frame, c: ColName): (r: Result<seq<Option<real>>, Error>)
    ensures r.Failure? <==> c !in t.columns || HasString(Column(t, c))
    ensures r.Failure? ==> r.error == if c in t.columns then TypeError(c) else KeyError(c)
    ensures r.Success? ==> r.value == Reals(Column(t, c))
  {
    if c !in t.columns then Failure(KeyError(c))
    else if HasString(Column(t, c)) then Failure(TypeError(c))
    else Success(Reals(Column(t, c)))
  }

  /**
   * The three writes of `segment_customers` on the label column: everyone
   * "General", then "High Balance" where the balance is at least the median,
   * then "Returning Customer" where `previous > 0`. The later write wins, so
   * each label is the one the precedence rule gives.
   */
  function SegmentLabels(balance: seq<Option<real>>, previous: seq<Option<real>>, median: Option<real>): (r: seq<string>)
    requires |balance| == |previous|
    ensures |r| == |balance|
    ensures forall i | 0 <= i < |r| :: r[i] == SegmentOf(balance[i], previous[i], median).Label()
  {
    var n := |balance|;
    var general := seq(n, _ => "General");
    var high := Overwrite(general, seq(n, i requires 0 <= i < n => AtLeast(balance[i], median)), "High Balance");
    Overwrite(high, seq(n, i requires 0 <= i < n => Positive(previous[i])), "Returning Customer")
  }

  /** The columns segmentation reads are present and hold no string. */
  predicate Segmentable(t: Frame) {
    && Balance in t.columns && !HasString(Column(t, Balance))
    && Previous in t.columns && !HasString(Column(t, Previous))
  }

  /**
   * `segment_customers`: reads `balance` (and its median) and `previous`,
   * raising when either is absent or not numeric, and sets the
   * `customer_segment` column by the precedence rule.
   */
  function SegmentCustomers(t: Frame): (r: Result<Frame, Error>)
    ensures r.Failure? <==> !Segmentable(t)
    ensures r.Success? ==> SetsColumn(t, r.value, SegmentColumn)
    ensures r.Success? ==>
      var balance := Reals(Column(t, Balance));
      var previous := Reals(Column(t, Previous));
      forall i | 0 <= i < |t.rows| ::
        Column(r.value, SegmentColumn)[i] == Some(Str(SegmentOf(balance[i], previous[i], Median(balance)).Label()))
  {
    match NumericColumn(t, Balance)
    case Failure(err) => Failure(err)
    case Success(balance) =>
      match NumericColumn(t, Previous)
      case Failure(err) => Failure(err)
      case Success(previous) =>
        var cells := LabelCells(SegmentLabels(balance, previous, Median(balance)));
        AssignSetsColumn(t, SegmentColumn, cells);
        Success(Assign(t, SegmentColumn, cells))
  }

  /**
   * The precedence spelled out on a row: `previous > 0` gives "Returning
   * Customer" whatever the balance; otherwise a balance at or above the
   * median gives "High Balance" and any other balance "General". Every row
   * gets exactly one of the three labels.
   */
  lemma SegmentPrecedence(t: Frame, i: int)
    requires Segmentable(t) && 0 <= i < |t.rows|
    ensures
      var b := AsReal(Column(t, Balance)[i]);
      var p := AsReal(Column(t, Previous)[i]);
      var m := Median(Reals(Column(t, Balance)));
      var s := Column(SegmentCustomers(t).value, SegmentColumn)[i];
      && (Positive(p) ==> s == Some(Str("Returning Customer")))
      && (!Positive(p) && AtLeast(b, m) ==> s == Some(Str("High Balance")))
      && (!Positive(p) && !AtLeast(b, m) ==> s == Some(Str("General")))
      && (s == Some(Str("General")) || s == Some(Str("High Balance")) || s == Some(Str("Returning Customer")))
  {
  }

  /**
   * `assign_campaigns`: everyone starts in group "C", "High Balance" rows are
   * overwritten with "A" and "General" rows with "B"; any other segment,
   * "Returning Customer" included, stays in "C".
   */
  function AssignCampaigns(t: Frame): (r: Result<Frame, Error>)
    ensures r.Failure? <==> SegmentColumn !in t.columns
    ensures r.Failure? ==> r.error == KeyError(SegmentColumn)
    ensures r.Success? ==> SetsColumn(t, r.value, GroupColumn)
    ensures r.Success? ==> forall i | 0 <= i < |t.rows| ::
      var s := Column(t, SegmentColumn)[i];
      Column(r.value, GroupColumn)[i] ==
        if s == Some(Str("High Balance")) then Some(Str("A"))
        else if s == Some(Str("General")) then Some(Str("B"))
        else Some(Str("C"))
  {
    if SegmentColumn !in t.columns then Failure(KeyError(SegmentColumn))
    else
      var n := |t.rows|;
      var segments := Column(t, SegmentColumn);
      var groups := Overwrite(
        Overwrite(seq(n, _ => "C"), seq(n, i requires 0 <= i < n => segments[i] == Some(Str("High Balance"))), "A"),
        seq(n, i requires 0 <= i < n => segments[i] == Some(Str("General"))), "B");
      AssignSetsColumn(t, GroupColumn, LabelCells(groups));
      Success(Assign(t, GroupColumn, LabelCells(groups)))
  }

  /** Segmentation followed by campaign assignment, as the script runs them. */
  function SegmentAndAssign(t: Frame): (r: Result<Frame, Error>)
    ensures r.Failure? <==> !Segmentable(t)
  {
    match SegmentCustomers(t)
    case Failure(err) => Failure(err)
    case Success(u) => AssignCampaigns(u)
  }

  /**
   * `r` is `t` with the segment and group columns written: the same rows,
   * every other column unchanged, and row `i` labelled with the segment the
   * precedence rule gives for `balance[i]`, `previous[i]` and the median `m`,
   * and with that segment's campaign group.
   */
  predicate SegmentedAs(t: Frame, r: Frame, balance: seq<Option<real>>, previous: seq<Option<real>>, m: Option<real>) {
    && |balance| == |t.rows| && |previous| == |t.rows|
    && |r.rows| == |t.rows|
    && SegmentColumn in r.columns && GroupColumn in r.columns
    && (forall d | d in t.columns && d != SegmentColumn && d != GroupColumn :: d in r.columns && Column(r, d) == Column(t, d))
    && (forall i | 0 <= i < |t.rows| ::
          var s := SegmentOf(balance[i], previous[i], m);
          && Column(r, SegmentColumn)[i] == Some(Str(s.Label()))
          && Column(r, GroupColumn)[i] == Some(Str(CampaignOf(s).Label())))
  }

  /** `u` is `t` with each row's segment label written, by the precedence rule on `balance`, `previous` and `m`. */
  predicate LabelsSegments(t: Frame, u: Frame, balance: seq<Option<real>>, previous: seq<Option<real>>, m: Option<real>) {
    && |balance| == |t.rows| && |previous| == |t.rows|
    && SetsColumn(t, u, SegmentColumn)
    && forall i | 0 <= i < |t.rows| :: Column(u, SegmentColumn)[i] == Some(Str(SegmentOf(balance[i], previous[i], m).Label()))
  }

  /** `r` is `u` with each row's campaign group written from its segment label. */
  predicate GroupsCampaigns(u: Frame, r: Frame)
    requires SegmentColumn in u.columns
  {
    && SetsColumn(u, r, GroupColumn)
    && forall i | 0 <= i < |u.rows| ::
      var s := Column(u, SegmentColumn)[i];
      Column(r, GroupColumn)[i] ==
        if s == Some(Str("High Balance")) then Some(Str("A"))
        else if s == Some(Str("General")) then Some(Str("B"))
        else Some(Str("C"))
  }

  /** What segmentation then assignment leave in `r`, given the segment labels of `u`. */
  lemma ComposeSteps(t: Frame, u: Frame, r: Frame, balance: seq<Option<real>>, previous: seq<Option<real>>, m: Option<real>)
    requires LabelsSegments(t, u, balance, previous, m)
    requires GroupsCampaigns(u, r)
    ensures SegmentedAs(t, r, balance, previous, m)
  {
    assert SegmentColumn != GroupColumn;
    forall d | d in t.columns && d != SegmentColumn && d != GroupColumn
      ensures d in r.columns && Column(r, d) == Column(t, d)
    {
      assert Column(u, d) == Column(t, d);
    }
    assert Column(r, SegmentColumn) == Column(u, SegmentColumn);
    forall i | 0 <= i < |t.rows|
      ensures var s := SegmentOf(balance[i], previous[i], m);
        && Column(r, SegmentColumn)[i] == Some(Str(s.Label()))
        && Column(r, GroupColumn)[i] == Some(Str(CampaignOf(s).Label()))
    {
      GroupOfLabel(SegmentOf(balance[i], previous[i], m));
    }
  }

  /** The assignment's two tests on a segment's label pick that segment's campaign. */
  lemma GroupOfLabel(s: Segment)
    ensures var cell := Some(Str(s.Label()));
      (if cell == Some(Str("High Balance")) then Some(Str("A"))
       else if cell == Some(Str("General")) then Some(Str("B"))
       else Some(Str("C"))) == Some(Str(CampaignOf(s).Label()))
  {
    assert "General" != "High Balance" && "Returning Customer" != "High Balance" && "Returning Customer" != "General";
  }

  /**
   * Every row's campaign group is the one its segment maps to, and the two
   * steps only add the segment and group columns: the row count and every
   * other column are unchanged.
   */
  lemma SegmentAndAssignFacts(t: Frame)
    requires Segmentable(t)
    ensures var balance := Reals(Column(t, Balance));
      SegmentedAs(t, SegmentAndAssign(t).value, balance, Reals(Column(t, Previous)), Median(balance))
  {
    var u := SegmentCustomers(t).value;
    var r := AssignCampaigns(u).value;
    assert SegmentAndAssign(t).value == r;
    var balance := Reals(Column(t, Balance));
    var previous := Reals(Column(t, Previous));
    assert LabelsSegments(t, u, balance, previous, Median(balance));
    assert GroupsCampaigns(u, r);
    ComposeSteps(t, u, r, balance, previous, Median(balance));
  }
}
