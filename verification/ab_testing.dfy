/**
 * The A/B/C test over the campaign groups: a group × outcome contingency
 * table of counts, per-group conversion proportions, and the significance
 * decision on the p-value of the chi-square test (the test itself is an
 * input: a function of the contingency table).
 */
module AbTesting {
  import opened Wrappers
  import opened Seqs
  import opened Tables
  import opened Order
  import opened Segmentation
  import opened Statistics

  const Significance: real := 0.05

  /** One counted row: its campaign group and its deposit outcome. */
  datatype Pair = Pair(group: Cell, outcome: Cell)

  // ---------------------------------------------------------------------------
  // Counting

  /** The (group, outcome) pairs of the rows where both are present: the rows pandas groups. */
  function Observations(groups: seq<Cell>, outcomes: seq<Cell>): (r: seq<Pair>)
    requires |groups| == |outcomes|
    ensures |r| <= |groups|
  {
    if |groups| == 0 then []
    else
      var n := |groups|;
      var init := Observations(groups[..n - 1], outcomes[..n - 1]);
      if groups[n - 1].Some? && outcomes[n - 1].Some? then init + [Pair(groups[n - 1], outcomes[n - 1])] else init
  }

  /** The rows whose group is `g` and whose outcome is `o`. */
  function RowsWith(groups: seq<Cell>, outcomes: seq<Cell>, g: Cell, o: Cell): set<int>
    requires |groups| == |outcomes|
  {
    set r | 0 <= r < |groups| && groups[r] == g && outcomes[r] == o
  }

  /** The rows of group `g` whose outcome is present: the group's size. */
  function GroupRows(groups: seq<Cell>, outcomes: seq<Cell>, g: Cell): set<int>
    requires |groups| == |outcomes|
  {
    set r | 0 <= r < |groups| && groups[r] == g && outcomes[r].Some?
  }

  /** The rows where both group and outcome are present. */
  function CountedRows(groups: seq<Cell>, outcomes: seq<Cell>): set<int>
    requires |groups| == |outcomes|
  {
    set r | 0 <= r < |groups| && groups[r].Some? && outcomes[r].Some?
  }

  function Firsts(obs: seq<Pair>): (r: seq<Cell>)
    ensures |r| == |obs|
    ensures forall k | 0 <= k < |obs| :: r[k] == obs[k].group
  {
    seq(|obs|, k requires 0 <= k < |obs| => obs[k].group)
  }

  function Seconds(obs: seq<Pair>): (r: seq<Cell>)
    ensures |r| == |obs|
    ensures forall k | 0 <= k < |obs| :: r[k] == obs[k].outcome
  {
    seq(|obs|, k requires 0 <= k < |obs| => obs[k].outcome)
  }

  /** The outcomes observed for group `g`, in row order. */
  function OutcomesOf(obs: seq<Pair>, g: Cell): (r: seq<Cell>)
    ensures forall o | o in r :: Pair(g, o) in obs
  {
    if |obs| == 0 then []
    else
      var init := OutcomesOf(obs[..|obs| - 1], g);
      var last := obs[|obs| - 1];
      if last.group == g then init + [last.outcome] else init
  }

  lemma {:induction false} OccObservations(groups: seq<Cell>, outcomes: seq<Cell>, g: Cell, o: Cell)
    requires |groups| == |outcomes| && g.Some? && o.Some?
    ensures Occ(Observations(groups, outcomes), Pair(g, o)) == |RowsWith(groups, outcomes, g, o)|
  {
    var n := |groups|;
    if n > 0 {
      OccObservations(groups[..n - 1], outcomes[..n - 1], g, o);
      ObservationsSnoc(groups, outcomes);
      OccAppendPresent(Observations(groups, outcomes), Observations(groups[..n - 1], outcomes[..n - 1]), groups[n - 1], outcomes[n - 1], g, o);
      RowsWithSnoc(groups, outcomes, g, o);
    }
  }

  /** The last row adds one observation of its pair, if both its cells are present. */
  lemma ObservationsSnoc(groups: seq<Cell>, outcomes: seq<Cell>)
    requires |groups| == |outcomes| > 0
    ensures var n := |groups|;
      var obs0 := Observations(groups[..n - 1], outcomes[..n - 1]);
      Observations(groups, outcomes) ==
        if groups[n - 1].Some? && outcomes[n - 1].Some? then obs0 + [Pair(groups[n - 1], outcomes[n - 1])] else obs0
  {
  }

  lemma OccAppendPresent(obs: seq<Pair>, obs0: seq<Pair>, a: Cell, b: Cell, g: Cell, o: Cell)
    requires obs == if a.Some? && b.Some? then obs0 + [Pair(a, b)] else obs0
    requires g.Some? && o.Some?
    ensures Occ(obs, Pair(g, o)) == Occ(obs0, Pair(g, o)) + (if a == g && b == o then 1 else 0)
  {
    if a.Some? && b.Some? {
      OccSnoc(obs0, Pair(a, b), Pair(g, o));
    }
  }

  lemma FirstSnoc(groups: seq<Cell>, outcomes: seq<Cell>, g: Cell)
    requires |groups| == |outcomes| > 0 && g.Some?
    ensures var n := |groups|;
      Occ(Firsts(Observations(groups, outcomes)), g) ==
        Occ(Firsts(Observations(groups[..n - 1], outcomes[..n - 1])), g) + (if groups[n - 1] == g && outcomes[n - 1].Some? then 1 else 0)
  {
    var n := |groups|;
    ObservationsSnoc(groups, outcomes);
    var obs0 := Observations(groups[..n - 1], outcomes[..n - 1]);
    if groups[n - 1].Some? && outcomes[n - 1].Some? {
      assert Firsts(Observations(groups, outcomes)) == Firsts(obs0) + [groups[n - 1]];
      OccSnoc(Firsts(obs0), groups[n - 1], g);
    }
  }

  lemma RowsWithSnoc(groups: seq<Cell>, outcomes: seq<Cell>, g: Cell, o: Cell)
    requires |groups| == |outcomes| > 0
    ensures var n := |groups|;
      |RowsWith(groups, outcomes, g, o)| ==
        |RowsWith(groups[..n - 1], outcomes[..n - 1], g, o)| + (if groups[n - 1] == g && outcomes[n - 1] == o then 1 else 0)
  {
    var n := |groups|;
    RowsWithSplit(groups, outcomes, g, o);
    if groups[n - 1] == g && outcomes[n - 1] == o {
      assert RowsWith(groups, outcomes, g, o) == RowsWith(groups[..n - 1], outcomes[..n - 1], g, o) + {n - 1};
    } else {
      assert RowsWith(groups, outcomes, g, o) == RowsWith(groups[..n - 1], outcomes[..n - 1], g, o);
    }
  }

  /** Membership in `RowsWith` splits into the rows before the last and the last row. */
  lemma RowsWithSplit(groups: seq<Cell>, outcomes: seq<Cell>, g: Cell, o: Cell)
    requires |groups| == |outcomes| > 0
    ensures var n := |groups|;
      && n - 1 !in RowsWith(groups[..n - 1], outcomes[..n - 1], g, o)
      && forall r :: r in RowsWith(groups, outcomes, g, o) <==>
        r in RowsWith(groups[..n - 1], outcomes[..n - 1], g, o) || (r == n - 1 && groups[n - 1] == g && outcomes[n - 1] == o)
  {
  }

  lemma GroupRowsSnoc(groups: seq<Cell>, outcomes: seq<Cell>, g: Cell)
    requires |groups| == |outcomes| > 0
    ensures var n := |groups|;
      |GroupRows(groups, outcomes, g)| ==
        |GroupRows(groups[..n - 1], outcomes[..n - 1], g)| + (if groups[n - 1] == g && outcomes[n - 1].Some? then 1 else 0)
  {
    var n := |groups|;
    GroupRowsSplit(groups, outcomes, g);
    if groups[n - 1] == g && outcomes[n - 1].Some? {
      assert GroupRows(groups, outcomes, g) == GroupRows(groups[..n - 1], outcomes[..n - 1], g) + {n - 1};
    } else {
      assert GroupRows(groups, outcomes, g) == GroupRows(groups[..n - 1], outcomes[..n - 1], g);
    }
  }

  /** Membership in `GroupRows` splits into the rows before the last and the last row. */
  lemma GroupRowsSplit(groups: seq<Cell>, outcomes: seq<Cell>, g: Cell)
    requires |groups| == |outcomes| > 0
    ensures var n := |groups|;
      && n - 1 !in GroupRows(groups[..n - 1], outcomes[..n - 1], g)
      && forall r :: r in GroupRows(groups, outcomes, g) <==>
        r in GroupRows(groups[..n - 1], outcomes[..n - 1], g) || (r == n - 1 && groups[n - 1] == g && outcomes[n - 1].Some?)
  {
  }

  lemma {:induction false} ObservationsCount(groups: seq<Cell>, outcomes: seq<Cell>)
    requires |groups| == |outcomes|
    ensures |Observations(groups, outcomes)| == |CountedRows(groups, outcomes)|
  {
    var n := |groups|;
    if n > 0 {
      var gs, os := groups[..n - 1], outcomes[..n - 1];
      ObservationsCount(gs, os);
      var all, before := CountedRows(groups, outcomes), CountedRows(gs, os);
      if groups[n - 1].Some? && outcomes[n - 1].Some? {
        assert all == before + {n - 1};
      } else {
        assert all == before;
      }
    }
  }

  lemma {:induction false} OccFirstsObservations(groups: seq<Cell>, outcomes: seq<Cell>, g: Cell)
    requires |groups| == |outcomes| && g.Some?
    ensures Occ(Firsts(Observations(groups, outcomes)), g) == |GroupRows(groups, outcomes, g)|
  {
    var n := |groups|;
    if n > 0 {
      OccFirstsObservations(groups[..n - 1], outcomes[..n - 1], g);
      FirstSnoc(groups, outcomes, g);
      GroupRowsSnoc(groups, outcomes, g);
    }
  }

  lemma {:induction false} OccPair(obs: seq<Pair>, g: Cell, o: Cell)
    ensures Occ(obs, Pair(g, o)) == Occ(OutcomesOf(obs, g), o)
  {
    if |obs| > 0 {
      OccPair(obs[..|obs| - 1], g, o);
    }
  }

  lemma {:induction false} OutcomesOfLength(obs: seq<Pair>, g: Cell)
    ensures |OutcomesOf(obs, g)| == Occ(Firsts(obs), g)
  {
    if |obs| > 0 {
      OutcomesOfLength(obs[..|obs| - 1], g);
      assert Firsts(obs)[..|obs| - 1] == Firsts(obs[..|obs| - 1]);
    }
  }

  // ---------------------------------------------------------------------------
  // The contingency table

  function Sum(s: seq<nat>): nat {
    if |s| == 0 then 0 else Sum(s[..|s| - 1]) + s[|s| - 1]
  }

  function Total(m: seq<seq<nat>>): nat {
    if |m| == 0 then 0 else Total(m[..|m| - 1]) + Sum(m[|m| - 1])
  }

  /** Group × outcome counts, rows and columns labelled in sorted order. */
  datatype ContingencyTable = ContingencyTable(groups: seq<Cell>, outcomes: seq<Cell>, counts: seq<seq<nat>>)

  function CountRow(obs: seq<Pair>, g: Cell, outcomes: seq<Cell>): (r: seq<nat>)
    ensures |r| == |outcomes|
    ensures forall j | 0 <= j < |outcomes| :: r[j] == Occ(obs, Pair(g, outcomes[j]))
  {
    seq(|outcomes|, j requires 0 <= j < |outcomes| => Occ(obs, Pair(g, outcomes[j])))
  }

  function CountMatrix(obs: seq<Pair>, groups: seq<Cell>, outcomes: seq<Cell>): (m: seq<seq<nat>>)
    ensures |m| == |groups|
    ensures forall i | 0 <= i < |groups| :: m[i] == CountRow(obs, groups[i], outcomes)
  {
    seq(|groups|, i requires 0 <= i < |groups| => CountRow(obs, groups[i], outcomes))
  }

  lemma {:induction false} SumCountRow(obs: seq<Pair>, g: Cell, outcomes: seq<Cell>)
    ensures Sum(CountRow(obs, g, outcomes)) == SumOcc(OutcomesOf(obs, g), outcomes)
  {
    var n := |outcomes|;
    if n > 0 {
      SumCountRow(obs, g, outcomes[..n - 1]);
      assert CountRow(obs, g, outcomes)[..n - 1] == CountRow(obs, g, outcomes[..n - 1]);
      OccPair(obs, g, outcomes[n - 1]);
    }
  }

  /** A group's counts add up to its number of observations when the outcome labels cover them. */
  lemma RowSumIsGroupSize(obs: seq<Pair>, g: Cell, outcomes: seq<Cell>)
    requires Distinct(outcomes)
    requires forall k | 0 <= k < |obs| :: obs[k].outcome in outcomes
    ensures Sum(CountRow(obs, g, outcomes)) == Occ(Firsts(obs), g)
  {
    SumCountRow(obs, g, outcomes);
    var outs := OutcomesOf(obs, g);
    forall k | 0 <= k < |outs| ensures outs[k] in outcomes {
      assert Pair(g, outs[k]) in obs;
    }
    SumOccPartition(outs, outcomes);
    OutcomesOfLength(obs, g);
  }

  lemma {:induction false} TotalCountMatrix(obs: seq<Pair>, groups: seq<Cell>, outcomes: seq<Cell>)
    requires Distinct(outcomes)
    requires forall k | 0 <= k < |obs| :: obs[k].outcome in outcomes
    ensures Total(CountMatrix(obs, groups, outcomes)) == SumOcc(Firsts(obs), groups)
  {
    var n := |groups|;
    if n > 0 {
      TotalCountMatrix(obs, groups[..n - 1], outcomes);
      assert CountMatrix(obs, groups, outcomes)[..n - 1] == CountMatrix(obs, groups[..n - 1], outcomes);
      RowSumIsGroupSize(obs, groups[n - 1], outcomes);
    }
  }

  /**
   * `pivot_table(index=group, columns=deposit, aggfunc="size", fill_value=0)`:
   * rows and columns are the sorted distinct groups and outcomes of the rows
   * where both are present; each cell counts the rows with that group and
   * outcome (0 for a pair that never occurs); each row adds up to the
   * group's size and the whole table to the number of rows counted.
   */
  function Crosstab(groups: seq<Cell>, outcomes: seq<Cell>): (ct: ContingencyTable)
    requires |groups| == |outcomes|
    ensures StrictlySorted(ct.groups) && StrictlySorted(ct.outcomes)
    ensures forall g :: g in ct.groups <==> g.Some? && exists r | 0 <= r < |groups| :: groups[r] == g && outcomes[r].Some?
    ensures forall o :: o in ct.outcomes <==> o.Some? && exists r | 0 <= r < |groups| :: outcomes[r] == o && groups[r].Some?
    ensures |ct.counts| == |ct.groups|
    ensures forall i | 0 <= i < |ct.groups| :: |ct.counts[i]| == |ct.outcomes|
    ensures forall i, j | 0 <= i < |ct.groups| && 0 <= j < |ct.outcomes| ::
      ct.counts[i][j] == |RowsWith(groups, outcomes, ct.groups[i], ct.outcomes[j])|
    ensures forall i | 0 <= i < |ct.groups| :: Sum(ct.counts[i]) == |GroupRows(groups, outcomes, ct.groups[i])| > 0
    ensures Total(ct.counts) == |CountedRows(groups, outcomes)|
  {
    TabulateLabels(groups, outcomes);
    TabulateCells(groups, outcomes);
    TabulateSums(groups, outcomes);
    Tabulate(groups, outcomes)
  }

  /** The table's construction: labels from the observations, then one count per label pair. */
  function Tabulate(groups: seq<Cell>, outcomes: seq<Cell>): ContingencyTable
    requires |groups| == |outcomes|
  {
    var obs := Observations(groups, outcomes);
    var gs := Classes(Firsts(obs));
    var os := Classes(Seconds(obs));
    ContingencyTable(gs, os, CountMatrix(obs, gs, os))
  }

  lemma TabulateLabels(groups: seq<Cell>, outcomes: seq<Cell>)
    requires |groups| == |outcomes|
    ensures var ct := Tabulate(groups, outcomes);
      && StrictlySorted(ct.groups) && StrictlySorted(ct.outcomes)
      && (forall g :: g in ct.groups <==> g.Some? && exists r | 0 <= r < |groups| :: groups[r] == g && outcomes[r].Some?)
      && (forall o :: o in ct.outcomes <==> o.Some? && exists r | 0 <= r < |groups| :: outcomes[r] == o && groups[r].Some?)
  {
    ObservationsFacts(groups, outcomes);
  }

  lemma TabulateCells(groups: seq<Cell>, outcomes: seq<Cell>)
    requires |groups| == |outcomes|
    ensures var ct := Tabulate(groups, outcomes);
      && |ct.counts| == |ct.groups|
      && (forall i | 0 <= i < |ct.groups| :: |ct.counts[i]| == |ct.outcomes|)
      && forall i, j | 0 <= i < |ct.groups| && 0 <= j < |ct.outcomes| ::
        ct.counts[i][j] == |RowsWith(groups, outcomes, ct.groups[i], ct.outcomes[j])|
  {
    var obs := Observations(groups, outcomes);
    var gs := Classes(Firsts(obs));
    var os := Classes(Seconds(obs));
    ObservationsFacts(groups, outcomes);
    ObservationLabels(obs, gs, os);
    CrosstabCells(groups, outcomes, obs, gs, os);
  }

  lemma TabulateSums(groups: seq<Cell>, outcomes: seq<Cell>)
    requires |groups| == |outcomes|
    ensures var ct := Tabulate(groups, outcomes);
      && (forall i | 0 <= i < |ct.groups| :: Sum(ct.counts[i]) == |GroupRows(groups, outcomes, ct.groups[i])| > 0)
      && Total(ct.counts) == |CountedRows(groups, outcomes)|
  {
    var obs := Observations(groups, outcomes);
    var gs := Classes(Firsts(obs));
    var os := Classes(Seconds(obs));
    ObservationsFacts(groups, outcomes);
    StrictlySortedDistinct(gs);
    StrictlySortedDistinct(os);
    ObservationLabels(obs, gs, os);
    CrosstabRowSums(groups, outcomes, obs, gs, os);
    CrosstabTotal(groups, outcomes, obs, gs, os);
  }

  /** Every observation's group and outcome is among the table's labels. */
  lemma ObservationLabels(obs: seq<Pair>, gs: seq<Cell>, os: seq<Cell>)
    requires gs == Classes(Firsts(obs)) && os == Classes(Seconds(obs))
    ensures forall k | 0 <= k < |obs| :: obs[k].group in gs && obs[k].outcome in os
    ensures forall k | 0 <= k < |gs| :: gs[k] in Firsts(obs)
    ensures forall k | 0 <= k < |os| :: os[k] in Seconds(obs)
  {
    forall k | 0 <= k < |obs| ensures obs[k].group in gs && obs[k].outcome in os {
      assert Firsts(obs)[k] in Firsts(obs);
      assert Seconds(obs)[k] in Seconds(obs);
    }
  }

  lemma CrosstabCells(groups: seq<Cell>, outcomes: seq<Cell>, obs: seq<Pair>, gs: seq<Cell>, os: seq<Cell>)
    requires |groups| == |outcomes| && obs == Observations(groups, outcomes)
    requires forall k | 0 <= k < |gs| :: gs[k].Some?
    requires forall k | 0 <= k < |os| :: os[k].Some?
    ensures forall i, j | 0 <= i < |gs| && 0 <= j < |os| ::
      CountMatrix(obs, gs, os)[i][j] == |RowsWith(groups, outcomes, gs[i], os[j])|
  {
    forall i, j | 0 <= i < |gs| && 0 <= j < |os|
      ensures CountMatrix(obs, gs, os)[i][j] == |RowsWith(groups, outcomes, gs[i], os[j])|
    {
      OccObservations(groups, outcomes, gs[i], os[j]);
    }
  }

  lemma CrosstabRowSums(groups: seq<Cell>, outcomes: seq<Cell>, obs: seq<Pair>, gs: seq<Cell>, os: seq<Cell>)
    requires |groups| == |outcomes| && obs == Observations(groups, outcomes)
    requires forall k | 0 <= k < |gs| :: gs[k].Some? && gs[k] in Firsts(obs)
    requires Distinct(os) && forall k | 0 <= k < |obs| :: obs[k].outcome in os
    ensures forall i | 0 <= i < |gs| ::
      Sum(CountMatrix(obs, gs, os)[i]) == |GroupRows(groups, outcomes, gs[i])| > 0
  {
    forall i | 0 <= i < |gs|
      ensures Sum(CountMatrix(obs, gs, os)[i]) == |GroupRows(groups, outcomes, gs[i])| > 0
    {
      RowSumIsGroupSize(obs, gs[i], os);
      OccFirstsObservations(groups, outcomes, gs[i]);
      OccMember(Firsts(obs), gs[i]);
    }
  }

  lemma CrosstabTotal(groups: seq<Cell>, outcomes: seq<Cell>, obs: seq<Pair>, gs: seq<Cell>, os: seq<Cell>)
    requires |groups| == |outcomes| && obs == Observations(groups, outcomes)
    requires Distinct(gs) && forall k | 0 <= k < |obs| :: obs[k].group in gs
    requires Distinct(os) && forall k | 0 <= k < |obs| :: obs[k].outcome in os
    ensures Total(CountMatrix(obs, gs, os)) == |CountedRows(groups, outcomes)|
  {
    TotalCountMatrix(obs, gs, os);
    SumOccPartition(Firsts(obs), gs);
    ObservationsCount(groups, outcomes);
  }

  /** The labels met among the observations are exactly those of the rows counted. */
  lemma ObservationsFacts(groups: seq<Cell>, outcomes: seq<Cell>)
    requires |groups| == |outcomes|
    ensures forall g :: g in Firsts(Observations(groups, outcomes)) <==>
      g.Some? && exists r | 0 <= r < |groups| :: groups[r] == g && outcomes[r].Some?
    ensures forall o :: o in Seconds(Observations(groups, outcomes)) <==>
      o.Some? && exists r | 0 <= r < |groups| :: outcomes[r] == o && groups[r].Some?
  {
    forall g ensures g in Firsts(Observations(groups, outcomes)) <==>
      g.Some? && exists r | 0 <= r < |groups| :: groups[r] == g && outcomes[r].Some?
    {
      if g.Some? {
        OccFirstsObservations(groups, outcomes, g);
        OccMember(Firsts(Observations(groups, outcomes)), g);
        if exists r | 0 <= r < |groups| :: groups[r] == g && outcomes[r].Some? {
          var r :| 0 <= r < |groups| && groups[r] == g && outcomes[r].Some?;
          assert r in GroupRows(groups, outcomes, g);
        }
      } else {
        assert forall k | 0 <= k < |Observations(groups, outcomes)| :: Firsts(Observations(groups, outcomes))[k].Some?;
      }
    }
    forall o ensures o in Seconds(Observations(groups, outcomes)) <==>
      o.Some? && exists r | 0 <= r < |groups| :: outcomes[r] == o && groups[r].Some?
    {
      SecondsMember(groups, outcomes, o);
    }
  }

  lemma {:induction false} SecondsMember(groups: seq<Cell>, outcomes: seq<Cell>, o: Cell)
    requires |groups| == |outcomes|
    ensures o in Seconds(Observations(groups, outcomes)) <==>
      o.Some? && exists r | 0 <= r < |groups| :: outcomes[r] == o && groups[r].Some?
  {
    var n := |groups|;
    if n > 0 {
      SecondsMember(groups[..n - 1], outcomes[..n - 1], o);
      var obs := Observations(groups, outcomes);
      var obs0 := Observations(groups[..n - 1], outcomes[..n - 1]);
      if groups[n - 1].Some? && outcomes[n - 1].Some? {
        assert Seconds(obs) == Seconds(obs0) + [outcomes[n - 1]];
      } else {
        assert obs == obs0;
      }
      if o.Some? && exists r | 0 <= r < n :: outcomes[r] == o && groups[r].Some? {
        var r :| 0 <= r < n && outcomes[r] == o && groups[r].Some?;
        if r < n - 1 {
          assert outcomes[..n - 1][r] == o && groups[..n - 1][r].Some?;
        }
      }
    }
  }

  // ---------------------------------------------------------------------------
  // Conversion rates

  /** The sum of the present entries of a row of proportions (NaN skipped). */
  function RealSum(s: seq<Option<real>>): real {
    if |s| == 0 then 0.0
    else RealSum(s[..|s| - 1]) + (match s[|s| - 1] case Some(x) => x case None => 0.0)
  }

  /** One group's outcome proportions; an outcome the group never had is NaN (`None`). */
  function RateRow(counts: seq<nat>, size: nat): (r: seq<Option<real>>)
    requires size > 0
    ensures |r| == |counts|
  {
    seq(|counts|, j requires 0 <= j < |counts| =>
      if counts[j] == 0 then None else Some(counts[j] as real / size as real))
  }

  lemma {:induction false} RateRowSum(counts: seq<nat>, size: nat)
    requires size > 0
    ensures RealSum(RateRow(counts, size)) == Sum(counts) as real / size as real
  {
    var n := |counts|;
    if n > 0 {
      var rates := RateRow(counts, size);
      RateRowSum(counts[..n - 1], size);
      assert rates[..n - 1] == RateRow(counts[..n - 1], size);
      var last := if counts[n - 1] == 0 then 0.0 else counts[n - 1] as real / size as real;
      assert RealSum(rates) == RealSum(rates[..n - 1]) + last;
      DivAdd(Sum(counts[..n - 1]) as real, counts[n - 1] as real, size as real);
    }
  }

  lemma DivAdd(a: real, b: real, s: real)
    requires s > 0.0
    ensures a / s + b / s == (a + b) / s
  {
  }

  /** A row of proportions over the row's own total: shares in (0, 1] adding up to 1. */
  lemma RateRowFacts(counts: seq<nat>)
    requires Sum(counts) > 0
    ensures RealSum(RateRow(counts, Sum(counts))) == 1.0
    ensures forall j | 0 <= j < |counts| :: RateRow(counts, Sum(counts))[j].Some? ==>
      0.0 < RateRow(counts, Sum(counts))[j].value <= 1.0
  {
    var size := Sum(counts);
    var rates := RateRow(counts, size);
    RateRowSum(counts, size);
    Whole(size as real);
    forall j | 0 <= j < |counts| && rates[j].Some?
      ensures 0.0 < rates[j].value <= 1.0
    {
      SumBound(counts, j);
      Share(counts[j] as real, size as real);
    }
  }

  lemma Whole(s: real)
    requires s > 0.0
    ensures s / s == 1.0
  {
  }

  lemma Share(c: real, s: real)
    requires 0.0 < c <= s
    ensures 0.0 < c / s <= 1.0
  {
  }

  /**
   * `row` holds group `g`'s share of each outcome in `os`: the rows with
   * that outcome over the group's size, NaN where there are none; the shares
   * lie in (0, 1] and add up to 1.
   */
  predicate IsRateRow(row: seq<Option<real>>, groups: seq<Cell>, outcomes: seq<Cell>, g: Cell, os: seq<Cell>)
    requires |groups| == |outcomes|
  {
    && |row| == |os|
    && RealSum(row) == 1.0
    && |GroupRows(groups, outcomes, g)| > 0
    && forall j | 0 <= j < |os| ::
      var hits := |RowsWith(groups, outcomes, g, os[j])|;
      var size := |GroupRows(groups, outcomes, g)|;
      && (row[j].None? <==> hits == 0)
      && (row[j].Some? ==> row[j].value == hits as real / size as real)
      && (row[j].Some? ==> 0.0 < row[j].value <= 1.0)
  }

  /**
   * `groupby(group)[deposit].value_counts(normalize=True).unstack()`: for
   * each group of the contingency table, the share of its rows with each
   * outcome.
   */
  function ConversionRates(groups: seq<Cell>, outcomes: seq<Cell>): (rates: seq<seq<Option<real>>>)
    requires |groups| == |outcomes|
    ensures var ct := Crosstab(groups, outcomes);
      && |rates| == |ct.groups|
      && forall i | 0 <= i < |ct.groups| :: IsRateRow(rates[i], groups, outcomes, ct.groups[i], ct.outcomes)
  {
    SharesAreTableRates(groups, outcomes);
    RatesMeaning(groups, outcomes, Crosstab(groups, outcomes));
    GroupedShares(groups, outcomes)
  }

  /**
   * `value_counts(normalize=True)` on one group's observed outcomes `outs`,
   * read off at the labels `os`: each outcome's share of the group, NaN for
   * an outcome the group never had.
   */
  function ValueShares(outs: seq<Cell>, os: seq<Cell>): (r: seq<Option<real>>)
    ensures |r| == |os|
  {
    seq(|os|, j requires 0 <= j < |os| =>
      OccMember(outs, os[j]);
      if Occ(outs, os[j]) == 0 then None else Some(Occ(outs, os[j]) as real / |outs| as real))
  }

  /**
   * The grouping itself: the observed rows split by group, groups and
   * outcomes in sorted order (as `groupby` and `unstack` sort them), each
   * group's outcomes normalized on their own.
   */
  function GroupedShares(groups: seq<Cell>, outcomes: seq<Cell>): seq<seq<Option<real>>>
    requires |groups| == |outcomes|
  {
    var obs := Observations(groups, outcomes);
    SharesOf(obs, Classes(Firsts(obs)), Classes(Seconds(obs)))
  }

  /** Each group of `gs`, its observed outcomes normalized at the labels `os`. */
  function SharesOf(obs: seq<Pair>, gs: seq<Cell>, os: seq<Cell>): (r: seq<seq<Option<real>>>)
    ensures |r| == |gs|
    ensures forall i | 0 <= i < |gs| :: r[i] == ValueShares(OutcomesOf(obs, gs[i]), os)
  {
    seq(|gs|, i requires 0 <= i < |gs| => ValueShares(OutcomesOf(obs, gs[i]), os))
  }

  /** Normalizing each group's outcomes gives the same rows as dividing the table's counts by their row totals. */
  lemma SharesAreTableRates(groups: seq<Cell>, outcomes: seq<Cell>)
    requires |groups| == |outcomes|
    ensures GroupedShares(groups, outcomes) == Rates(Crosstab(groups, outcomes))
  {
    var obs := Observations(groups, outcomes);
    var gs := Classes(Firsts(obs));
    var os := Classes(Seconds(obs));
    var ct := Crosstab(groups, outcomes);
    assert ct == Tabulate(groups, outcomes);
    ObservationLabels(obs, gs, os);
    StrictlySortedDistinct(os);
    SharesAreRates(obs, gs, os);
  }

  /** Row by row, normalized outcomes are the count matrix over its row totals. */
  lemma SharesAreRates(obs: seq<Pair>, gs: seq<Cell>, os: seq<Cell>)
    requires Distinct(os)
    requires forall k | 0 <= k < |obs| :: obs[k].outcome in os
    requires forall k | 0 <= k < |gs| :: gs[k] in Firsts(obs)
    ensures forall i | 0 <= i < |gs| :: Sum(CountMatrix(obs, gs, os)[i]) > 0
    ensures SharesOf(obs, gs, os) == Rates(ContingencyTable(gs, os, CountMatrix(obs, gs, os)))
  {
    var m := CountMatrix(obs, gs, os);
    forall i | 0 <= i < |gs|
      ensures Sum(m[i]) > 0 && SharesOf(obs, gs, os)[i] == RateRow(m[i], Sum(m[i]))
    {
      OccMember(Firsts(obs), gs[i]);
      GroupSharesRow(obs, gs[i], os);
    }
  }

  /** One group's normalized outcomes are its row of counts over the row's total. */
  lemma GroupSharesRow(obs: seq<Pair>, g: Cell, os: seq<Cell>)
    requires Distinct(os)
    requires forall k | 0 <= k < |obs| :: obs[k].outcome in os
    requires Occ(Firsts(obs), g) > 0
    ensures Sum(CountRow(obs, g, os)) > 0
    ensures ValueShares(OutcomesOf(obs, g), os) == RateRow(CountRow(obs, g, os), Sum(CountRow(obs, g, os)))
  {
    RowSumIsGroupSize(obs, g, os);
    OutcomesOfLength(obs, g);
    forall j | 0 <= j < |os|
      ensures Occ(OutcomesOf(obs, g), os[j]) == CountRow(obs, g, os)[j]
    {
      OccPair(obs, g, os[j]);
    }
  }

  /** Each row of counts over its own total. */
  function Rates(ct: ContingencyTable): seq<seq<Option<real>>>
    requires forall i | 0 <= i < |ct.counts| :: Sum(ct.counts[i]) > 0
  {
    seq(|ct.counts|, i requires 0 <= i < |ct.counts| => RateRow(ct.counts[i], Sum(ct.counts[i])))
  }

  /** Every row of a table that counts `groups` against `outcomes` becomes that group's row of shares. */
  lemma RatesMeaning(groups: seq<Cell>, outcomes: seq<Cell>, ct: ContingencyTable)
    requires |groups| == |outcomes|
    requires |ct.counts| == |ct.groups|
    requires forall i | 0 <= i < |ct.groups| :: |ct.counts[i]| == |ct.outcomes|
    requires forall i, j | 0 <= i < |ct.groups| && 0 <= j < |ct.outcomes| ::
      ct.counts[i][j] == |RowsWith(groups, outcomes, ct.groups[i], ct.outcomes[j])|
    requires forall i | 0 <= i < |ct.groups| :: Sum(ct.counts[i]) == |GroupRows(groups, outcomes, ct.groups[i])| > 0
    ensures |Rates(ct)| == |ct.groups|
    ensures forall i | 0 <= i < |ct.groups| :: IsRateRow(Rates(ct)[i], groups, outcomes, ct.groups[i], ct.outcomes)
  {
    forall i | 0 <= i < |ct.groups|
      ensures IsRateRow(Rates(ct)[i], groups, outcomes, ct.groups[i], ct.outcomes)
    {
      RateRowMeaning(groups, outcomes, ct.groups[i], ct.outcomes, ct.counts[i]);
    }
  }

  /** A row of the table's counts, over its total, is the group's row of shares. */
  lemma RateRowMeaning(groups: seq<Cell>, outcomes: seq<Cell>, g: Cell, os: seq<Cell>, counts: seq<nat>)
    requires |groups| == |outcomes| && |counts| == |os|
    requires Sum(counts) == |GroupRows(groups, outcomes, g)| > 0
    requires forall j | 0 <= j < |os| :: counts[j] == |RowsWith(groups, outcomes, g, os[j])|
    ensures IsRateRow(RateRow(counts, Sum(counts)), groups, outcomes, g, os)
  {
    RateRowFacts(counts);
  }

  /**
   * The script computes the conversion rates by grouping and the
   * contingency table by pivoting, separately; they agree: each rate is the
   * table's count over its row's total, and NaN exactly where the count is
   * zero.
   */
  lemma RatesMatchTable(groups: seq<Cell>, outcomes: seq<Cell>)
    requires |groups| == |outcomes|
    ensures var ct := Crosstab(groups, outcomes);
      var rates := ConversionRates(groups, outcomes);
      && |rates| == |ct.counts|
      && forall i, j | 0 <= i < |ct.groups| && 0 <= j < |ct.outcomes| ::
        && j < |rates[i]|
        && rates[i][j] == if ct.counts[i][j] == 0 then None else Some(ct.counts[i][j] as real / Sum(ct.counts[i]) as real)
  {
    SharesAreTableRates(groups, outcomes);
  }

  lemma {:induction false} SumBound(s: seq<nat>, j: int)
    requires 0 <= j < |s|
    ensures s[j] <= Sum(s)
  {
    if j < |s| - 1 {
      SumBound(s[..|s| - 1], j);
    }
  }

  // ---------------------------------------------------------------------------
  // The decision and the stage

  datatype Verdict = Significant | NotSignificant

  /** The significance decision on a p-value at the fixed 5% level. */
  function Decide(p: real): (v: Verdict)
    ensures v == Significant <==> p < Significance
  {
    if p < Significance then Significant else NotSignificant
  }

  datatype AbReport = AbReport(
    data: Frame,
    table: ContingencyTable,
    rates: seq<seq<Option<real>>>,
    pValue: real,
    verdict: Verdict)

  /** Tabulation and decision on a segmented dataset with a deposit column. */
  function Analyze(u: Frame, chiSquarePValue: ContingencyTable -> real): (report: AbReport)
    requires GroupColumn in u.columns && Target in u.columns
    ensures report.data == u
    ensures report.table == Crosstab(Column(u, GroupColumn), Column(u, Target))
    ensures report.rates == ConversionRates(Column(u, GroupColumn), Column(u, Target))
    ensures report.pValue == chiSquarePValue(report.table)
    ensures report.verdict == Significant <==> chiSquarePValue(report.table) < Significance
  {
    var groups := Column(u, GroupColumn);
    var deposit := Column(u, Target);
    var ct := Crosstab(groups, deposit);
    var p := chiSquarePValue(ct);
    AbReport(u, ct, ConversionRates(groups, deposit), p, Decide(p))
  }

  /**
   * `report` is the test's outcome on dataset `t`: its data is `t` segmented
   * and assigned to campaigns, its table and its conversion rates tabulate
   * the campaign groups against `deposit`, its p-value is the chi-square
   * test's on that table, and its verdict is significant exactly when the
   * table's p-value is below the significance level.
   */
  predicate ReportOn(t: Frame, report: AbReport, chiSquarePValue: ContingencyTable -> real) {
    && SegmentAndAssign(t).Success?
    && report.data == SegmentAndAssign(t).value
    && GroupColumn in report.data.columns && Target in report.data.columns
    && report.table == Crosstab(Column(report.data, GroupColumn), Column(report.data, Target))
    && report.rates == ConversionRates(Column(report.data, GroupColumn), Column(report.data, Target))
    && report.pValue == chiSquarePValue(report.table)
    && (report.verdict == Significant <==> chiSquarePValue(report.table) < Significance)
  }

  /**
   * The A/B/C testing script: read the processed dataset, segment, assign
   * campaigns, tabulate group against deposit, and decide on the p-value
   * the chi-square test gives for the table. The chi-square test raises
   * `ValueError` on an empty table, which happens exactly when no deposit
   * outcome is known.
   */
  function AbTest(fs: FileSystem, path: string, chiSquarePValue: ContingencyTable -> real): (r: Result<AbReport, Error>)
    ensures path !in fs ==> r == Failure(FileNotFound(path))
    ensures r.Failure? <==>
      || path !in fs
      || SegmentAndAssign(fs[path]).Failure?
      || Target !in fs[path].columns
      || |Known(Column(fs[path], Target))| == 0
    ensures r.Success? ==> ReportOn(fs[path], r.value, chiSquarePValue)
  {
    match LoadData(fs, path)
    case Failure(err) => Failure(err)
    case Success(t) => TestDataset(t, chiSquarePValue)
  }

  /** The script after loading: segmentation, the `deposit` lookup, then the analysis. */
  function TestDataset(t: Frame, chiSquarePValue: ContingencyTable -> real): (r: Result<AbReport, Error>)
    ensures r.Failure? <==> SegmentAndAssign(t).Failure? || Target !in t.columns || |Known(Column(t, Target))| == 0
    ensures r.Success? ==> ReportOn(t, r.value, chiSquarePValue)
  {
    match SegmentAndAssign(t)
    case Failure(err) => Failure(err)
    case Success(u) =>
      if Target !in t.columns then Failure(KeyError(Target))
      else
        KnownCounted(t);
        var report := Analyze(u, chiSquarePValue);
        if Total(report.table.counts) == 0 then Failure(ValueError(Target))
        else Success(report)
  }

  /** The segmented table counts exactly the rows whose deposit outcome is known. */
  lemma KnownCounted(t: Frame)
    requires Segmentable(t) && Target in t.columns
    ensures var u := SegmentAndAssign(t).value;
      && GroupColumn in u.columns && Target in u.columns
      && Total(Crosstab(Column(u, GroupColumn), Column(u, Target)).counts) == |Known(Column(t, Target))|
  {
    SegmentedFrame(t);
    var u := SegmentAndAssign(t).value;
    TotalWhenGrouped(Column(u, GroupColumn), Column(u, Target));
  }

  /** The rows whose cell is present. */
  function Known(cells: seq<Cell>): set<int> {
    set k | 0 <= k < |cells| && cells[k].Some?
  }

  /** When every row has a group, the table counts exactly the rows whose outcome is known. */
  lemma TotalWhenGrouped(groups: seq<Cell>, outcomes: seq<Cell>)
    requires |groups| == |outcomes|
    requires forall k | 0 <= k < |groups| :: groups[k].Some?
    ensures Total(Crosstab(groups, outcomes).counts) == |Known(outcomes)|
  {
    assert CountedRows(groups, outcomes) == Known(outcomes);
  }

  /** The table's group labels are drawn from the labels the rows carry. */
  lemma GroupsAmong(groups: seq<Cell>, outcomes: seq<Cell>, labels: set<Cell>)
    requires |groups| == |outcomes|
    requires forall k | 0 <= k < |groups| :: groups[k] in labels
    ensures forall g | g in Crosstab(groups, outcomes).groups :: g in labels
  {
    forall g | g in Crosstab(groups, outcomes).groups ensures g in labels {
      var k :| 0 <= k < |groups| && groups[k] == g && outcomes[k].Some?;
    }
  }

  /**
   * Every customer lands in one of the groups A, B, C, so the table counts
   * exactly the customers whose deposit outcome is known, and only those
   * three groups label its rows.
   */
  lemma AbTestCounts(fs: FileSystem, path: string, chiSquarePValue: ContingencyTable -> real)
    requires path in fs && Segmentable(fs[path]) && Target in fs[path].columns
    requires |Known(Column(fs[path], Target))| > 0
    ensures
      var report := AbTest(fs, path, chiSquarePValue).value;
      var t := fs[path];
      && |report.data.rows| == |t.rows|
      && Column(report.data, Target) == Column(t, Target)
      && (forall g | g in report.table.groups :: g in CampaignCells)
      && Total(report.table.counts) == |Known(Column(t, Target))|
  {
    var t := fs[path];
    SegmentedFrame(t);
    KnownCounted(t);
    var u := SegmentAndAssign(t).value;
    GroupsAmong(Column(u, GroupColumn), Column(u, Target), CampaignCells);
    assert AbTest(fs, path, chiSquarePValue).value.data == u;
  }

  /** The cells of the three campaign groups. */
  const CampaignCells: set<Cell> := {Some(Str("A")), Some(Str("B")), Some(Str("C"))}

  /** After segmentation every row carries a campaign group, and the deposit column is untouched. */
  lemma SegmentedFrame(t: Frame)
    requires Segmentable(t) && Target in t.columns
    ensures var u := SegmentAndAssign(t).value;
      && |u.rows| == |t.rows|
      && GroupColumn in u.columns && Target in u.columns
      && Column(u, Target) == Column(t, Target)
      && forall k | 0 <= k < |u.rows| :: Column(u, GroupColumn)[k] in CampaignCells
  {
    SegmentAndAssignFacts(t);
    var u := SegmentAndAssign(t).value;
    var balance := Reals(Column(t, Balance));
    forall k | 0 <= k < |u.rows| ensures Column(u, GroupColumn)[k] in CampaignCells {
      CampaignLabels(SegmentOf(balance[k], Reals(Column(t, Previous))[k], Median(balance)));
    }
  }

  lemma CampaignLabels(s: Segment)
    ensures CampaignOf(s).Label() in {"A", "B", "C"}
  {
  }
}
