/** The counting part of the report: which rows are valid samples, how many
    games were led and won, the comeback rate and the per-rank breakdown.
    Rates are kept as numerator/denominator pairs. */
module Report {
  import opened MatchData
  import opened Threshold
  import opened Rows
  import Jobs

  datatype Mode = Sampling | Personal

  /** What the report step writes: nothing for an empty result table, only
      the raw rows when no row carries the threshold column, else the full
      report. */
  datatype ReportKind = NoReport | PartialExport | FullReport

  /** The threshold column exists once some row is a success. */
  predicate HasAdvantageColumn(rows: seq<Row>) {
    exists i :: 0 <= i < |rows| && rows[i].outcome.Success?
  }

  function ReportKindOf(rows: seq<Row>): (k: ReportKind)
    ensures k == NoReport <==> rows == []
    ensures k == PartialExport <==> rows != [] && forall r :: r in rows ==> !r.outcome.Success?
    ensures k == FullReport <==> exists r :: r in rows && r.outcome.Success?
  {
    if rows == [] then NoReport
    else if !HasAdvantageColumn(rows) then PartialExport
    else FullReport
  }

  /** A row enters the statistics when its threshold value is 0 or 1. */
  predicate IsValid(row: Row) {
    row.outcome.Success? && row.outcome.firstTo.Flag?
    && (row.outcome.firstTo.bit == 0 || row.outcome.firstTo.bit == 1)
  }

  /** The player's side reached the threshold first. */
  predicate IsLead(row: Row) {
    IsValid(row) && row.outcome.firstTo.bit == 1
  }

  /** The player's side did not reach the threshold first. */
  predicate IsComebackCandidate(row: Row) {
    IsValid(row) && row.outcome.firstTo.bit == 0
  }

  predicate IsWin(row: Row) {
    row.outcome.Success? && row.outcome.wonMatch == 1
  }

  /** The rows satisfying `p`, in their original order. */
  function Filter(rows: seq<Row>, p: Row -> bool): (r: seq<Row>)
    ensures |r| <= |rows|
    ensures forall x :: x in r <==> x in rows && p(x)
    ensures forall x :: multiset(r)[x] == if p(x) then multiset(rows)[x] else 0
  {
    if rows == [] then []
    else
      var last := rows[|rows| - 1];
      assert rows == rows[..|rows| - 1] + [last];
      Filter(rows[..|rows| - 1], p) + (if p(last) then [last] else [])
  }

  /** Two filters give the same rows in either order. */
  lemma {:induction false} FilterCommutes(rows: seq<Row>, p: Row -> bool, q: Row -> bool)
    ensures Filter(Filter(rows, p), q) == Filter(Filter(rows, q), p)
  {
    if rows != [] {
      var init := rows[..|rows| - 1];
      var last := rows[|rows| - 1];
      FilterCommutes(init, p, q);
      FilterAppend(Filter(init, p), if p(last) then [last] else [], q);
      FilterAppend(Filter(init, q), if q(last) then [last] else [], p);
    }
  }

  lemma {:induction false} FilterAppend(a: seq<Row>, b: seq<Row>, p: Row -> bool)
    requires |b| <= 1
    ensures Filter(a + b, p) == Filter(a, p) + Filter(b, p)
  {
    if b != [] {
      assert (a + b)[..|a + b| - 1] == a;
      assert b[..0] == [];
    } else {
      assert a + b == a;
    }
  }

  /** When every row satisfies exactly one of `p` and `q`, the two filters
      split the rows. */
  lemma {:induction false} FilterPartition(rows: seq<Row>, p: Row -> bool, q: Row -> bool)
    requires forall x :: x in rows ==> p(x) != q(x)
    ensures |Filter(rows, p)| + |Filter(rows, q)| == |rows|
  {
    if rows != [] {
      var init := rows[..|rows| - 1];
      assert forall x :: x in init ==> x in rows;
      FilterPartition(init, p, q);
    }
  }

  function ValidRows(rows: seq<Row>): seq<Row> {
    Filter(rows, IsValid)
  }

  function LeadRows(rows: seq<Row>): seq<Row> {
    Filter(ValidRows(rows), IsLead)
  }

  function ComebackRows(rows: seq<Row>): seq<Row> {
    Filter(ValidRows(rows), IsComebackCandidate)
  }

  /** Every valid row is either a lead row or a comeback candidate. */
  lemma ValidPartition(rows: seq<Row>)
    ensures |LeadRows(rows)| + |ComebackRows(rows)| == |ValidRows(rows)|
  {
    FilterPartition(ValidRows(rows), IsLead, IsComebackCandidate);
  }

  /** Composition of the wins: every valid win is a win after leading or a
      comeback win. */
  lemma WinComposition(rows: seq<Row>)
    ensures |Filter(ValidRows(rows), IsWin)|
      == |Filter(LeadRows(rows), IsWin)| + |Filter(ComebackRows(rows), IsWin)|
  {
    var wins := Filter(ValidRows(rows), IsWin);
    FilterPartition(wins, IsLead, IsComebackCandidate);
    FilterCommutes(ValidRows(rows), IsLead, IsWin);
    FilterCommutes(ValidRows(rows), IsComebackCandidate, IsWin);
  }

  /** A rate as wins over samples; `NoSamples` replaces a division by zero. */
  datatype Rate = Ratio(num: nat, den: nat) | NoSamples

  function RateOf(wins: seq<Row>, samples: seq<Row>): (r: Rate)
    requires |wins| <= |samples|
    ensures r.Ratio? <==> samples != []
    ensures r.Ratio? ==> r.den == |samples| && r.num == |wins| && r.num <= r.den
  {
    if samples == [] then NoSamples else Ratio(|wins|, |samples|)
  }

  /** The summary table; `Insufficient` when no row is a valid sample. */
  datatype Summary =
    | Insufficient
    | Stats(validCount: nat, leadCount: nat, leadWinRate: Rate, comebackRate: Rate)

  function Summarize(rows: seq<Row>): (s: Summary)
    ensures s.Insufficient? <==> ValidRows(rows) == []
    ensures s.Stats? ==> s.validCount == |ValidRows(rows)| && s.leadCount == |LeadRows(rows)|
    ensures s.Stats? ==> (s.leadWinRate.Ratio? <==> s.leadCount > 0)
    ensures s.Stats? && s.leadWinRate.Ratio? ==>
      s.leadWinRate.den == s.leadCount && s.leadWinRate.num <= s.leadWinRate.den
    ensures s.Stats? && s.leadWinRate.Ratio? ==> s.leadWinRate.num == |Filter(LeadRows(rows), IsWin)|
    ensures s.Stats? ==> (s.comebackRate.Ratio? <==> s.leadCount < s.validCount)
    ensures s.Stats? && s.comebackRate.Ratio? ==>
      s.comebackRate.den == s.validCount - s.leadCount && s.comebackRate.num <= s.comebackRate.den
    ensures s.Stats? && s.comebackRate.Ratio? ==> s.comebackRate.num == |Filter(ComebackRows(rows), IsWin)|
  {
    var valid := ValidRows(rows);
    if valid == [] then Insufficient
    else
      var leads := LeadRows(rows);
      var comebacks := ComebackRows(rows);
      ValidPartition(rows);
      Stats(|valid|, |leads|, RateOf(Filter(leads, IsWin), leads), RateOf(Filter(comebacks, IsWin), comebacks))
  }

  /** Once the threshold column exists, a table of rows whose successes all
      carry a 0/1 value (as the analysis flow produces) always has statistics. */
  lemma FullReportHasStats(rows: seq<Row>)
    requires forall i :: 0 <= i < |rows| && rows[i].outcome.Success? ==> IsValid(rows[i])
    ensures ReportKindOf(rows) == FullReport ==> Summarize(rows).Stats?
  {
  }

  /** The rank group of a medal label: the text before its first space. */
  function RankGroup(medal: string): (g: string)
    ensures g <= medal && ' ' !in g
    ensures |g| < |medal| ==> medal[|g|] == ' '
  {
    if medal == [] || medal[0] == ' ' then [] else [medal[0]] + RankGroup(medal[1..])
  }

  /** The display order of the rank groups. */
  const RankOrder: seq<string> := ["冠绝", "超凡", "万古", "传奇", "统帅", "中军", "卫士", "先锋", "未定级"]

  /** The three properties of `RankGroup` pin the group down. */
  lemma RankGroupUnique(medal: string, g: string)
    requires g <= medal && ' ' !in g
    requires |g| < |medal| ==> medal[|g|] == ' '
    ensures RankGroup(medal) == g
  {
  }

  /** Every medal a row can carry falls in one of the ordered groups. */
  lemma MedalGroupKnown(rankTier: Option<int>)
    ensures RankGroup(MedalLabel(rankTier)) in RankOrder
  {
    var m := MedalLabel(rankTier);
    if rankTier.Some? && rankTier.value in RankTiers && rankTier.value != 80 {
      var band := rankTier.value / 10;
      assert 1 <= band <= 7;
      var group := RankOrder[8 - band];
      assert m == group + m[2..] && m[2] == ' ';
      assert m[..2] == group;
      RankGroupUnique(m, m[..2]);
    } else {
      RankGroupUnique(m, m);
    }
  }

  /** The lead row's medal lies in `group`. */
  predicate InGroup(row: Row, group: string) {
    row.outcome.Success? && RankGroup(row.outcome.medal) == group
  }

  function GroupRows(leads: seq<Row>, group: string): seq<Row> {
    Filter(leads, r => InGroup(r, group))
  }

  /** A successful row built by the analysis flow has a medal of a known group. */
  lemma DerivedMedalKnown(job: Jobs.Job, details: Option<MatchDetail>, heroes: map<int, string>, threshold: int)
    ensures DeriveRow(job, details, heroes, threshold).outcome.Success? ==>
      RankGroup(DeriveRow(job, details, heroes, threshold).outcome.medal) in RankOrder
  {
    if details.Some? {
      var p := FindPlayer(PlayersOf(details.value), job.playerId);
      if p.Some? {
        MedalGroupKnown(p.value.rankTier);
      }
    }
  }

  /** The groups that occur among the rows. */
  function GroupsPresent(leads: seq<Row>): set<string> {
    set r | r in leads && r.outcome.Success? :: RankGroup(r.outcome.medal)
  }

  /** `sub` is `order` with some entries dropped and the rest kept in their order. */
  ghost predicate SubsequenceOf(sub: seq<string>, order: seq<string>) {
    if sub == [] then true
    else if order == [] then false
    else (sub[0] == order[0] && SubsequenceOf(sub[1..], order[1..])) || SubsequenceOf(sub, order[1..])
  }

  /** The entries of `order` that are present, kept in the order of `order`. */
  function OrderedGroups(order: seq<string>, present: set<string>): (r: seq<string>)
    ensures forall g :: g in r <==> g in order && g in present
    ensures SubsequenceOf(r, order)
  {
    if order == [] then []
    else
      var rest := OrderedGroups(order[1..], present);
      if order[0] in present then
        assert ([order[0]] + rest)[1..] == rest;
        [order[0]] + rest
      else rest
  }

  /** Win count and sample count of one rank group. */
  datatype GroupStat = GroupStat(group: string, wins: nat, count: nat)

  /** The group names of a breakdown, in its order. */
  function Groups(stats: seq<GroupStat>): (gs: seq<string>)
    ensures |gs| == |stats|
    ensures forall k :: 0 <= k < |stats| ==> gs[k] == stats[k].group
  {
    if stats == [] then [] else [stats[0].group] + Groups(stats[1..])
  }

  function Breakdown(groups: seq<string>, leads: seq<Row>): seq<GroupStat> {
    if groups == [] then []
    else
      var rowsOfGroup := GroupRows(leads, groups[0]);
      [GroupStat(groups[0], |Filter(rowsOfGroup, IsWin)|, |rowsOfGroup|)] + Breakdown(groups[1..], leads)
  }

  /** The per-rank analysis of the lead rows, groups in display order. */
  function RankBreakdown(rows: seq<Row>): (r: seq<GroupStat>)
    ensures forall k :: 0 <= k < |r| ==> 0 < r[k].count && r[k].wins <= r[k].count
    ensures forall g :: (exists k :: 0 <= k < |r| && r[k].group == g) <==>
      g in RankOrder && g in GroupsPresent(LeadRows(rows))
    ensures forall k :: 0 <= k < |r| ==>
      r[k].count == |GroupRows(LeadRows(rows), r[k].group)| &&
      r[k].wins == |Filter(GroupRows(LeadRows(rows), r[k].group), IsWin)|
    ensures SubsequenceOf(Groups(r), RankOrder)
  {
    var leads := LeadRows(rows);
    var groups := OrderedGroups(RankOrder, GroupsPresent(leads));
    BreakdownFacts(groups, leads);
    BreakdownShape(groups, leads);
    Breakdown(groups, leads)
  }

  /** A breakdown has one entry per group, in the groups' order. */
  lemma {:induction false} BreakdownGroups(groups: seq<string>, leads: seq<Row>)
    ensures |Breakdown(groups, leads)| == |groups|
    ensures forall k :: 0 <= k < |groups| ==> Breakdown(groups, leads)[k].group == groups[k]
  {
    if groups != [] {
      BreakdownGroups(groups[1..], leads);
    }
  }

  /** A breakdown over groups that all occur lists exactly those groups, in their order. */
  lemma BreakdownShape(groups: seq<string>, leads: seq<Row>)
    ensures Groups(Breakdown(groups, leads)) == groups
    ensures forall g :: (exists k :: 0 <= k < |Breakdown(groups, leads)| && Breakdown(groups, leads)[k].group == g) <==>
      g in groups
  {
    BreakdownGroups(groups, leads);
    var r := Breakdown(groups, leads);
    assert Groups(r) == groups;
    forall g | g in groups
      ensures exists k :: 0 <= k < |r| && r[k].group == g
    {
      var k :| 0 <= k < |groups| && groups[k] == g;
      assert r[k].group == g;
    }
  }


  /** Entry `k` of a breakdown counts the rows of group `k` and their wins. */
  lemma {:induction false} BreakdownAt(groups: seq<string>, leads: seq<Row>, k: nat)
    requires k < |groups|
    ensures |Breakdown(groups, leads)| == |groups|
    ensures Breakdown(groups, leads)[k] ==
      GroupStat(groups[k], |Filter(GroupRows(leads, groups[k]), IsWin)|, |GroupRows(leads, groups[k])|)
  {
    BreakdownGroups(groups, leads);
    if k > 0 {
      BreakdownAt(groups[1..], leads, k - 1);
      assert groups[1..][k - 1] == groups[k];
    }
  }

  lemma BreakdownFacts(groups: seq<string>, leads: seq<Row>)
    requires forall g :: g in groups ==> g in GroupsPresent(leads)
    ensures |Breakdown(groups, leads)| == |groups|
    ensures forall k :: 0 <= k < |groups| ==> Breakdown(groups, leads)[k].group == groups[k]
    ensures forall k :: 0 <= k < |groups| ==>
      0 < Breakdown(groups, leads)[k].count && Breakdown(groups, leads)[k].wins <= Breakdown(groups, leads)[k].count
    ensures forall k :: 0 <= k < |groups| ==>
      Breakdown(groups, leads)[k].count == |GroupRows(leads, groups[k])| &&
      Breakdown(groups, leads)[k].wins == |Filter(GroupRows(leads, groups[k]), IsWin)|
  {
    if groups == [] {
    } else {
      forall k | 0 <= k < |groups|
        ensures |Breakdown(groups, leads)| == |groups|
        ensures Breakdown(groups, leads)[k] ==
          GroupStat(groups[k], |Filter(GroupRows(leads, groups[k]), IsWin)|, |GroupRows(leads, groups[k])|)
        ensures 0 < |GroupRows(leads, groups[k])|
      {
        BreakdownAt(groups, leads, k);
        var g := groups[k];
        assert g in GroupsPresent(leads);
        var r :| r in leads && r.outcome.Success? && RankGroup(r.outcome.medal) == g;
        assert r in GroupRows(leads, g);
      }
    }
  }

  /** The rank chart: drawn in sampling mode when some valid game was won
      and some game was led. */
  function RankChart(mode: Mode, rows: seq<Row>): (c: Option<seq<GroupStat>>)
    ensures c.Some? <==>
      (mode == Sampling && (exists r :: r in rows && IsValid(r) && IsWin(r)) && (exists r :: r in rows && IsLead(r)))
    ensures c.Some? ==> forall k :: 0 <= k < |c.value| ==> 0 < c.value[k].count
  {
    ChartConditions(rows);
    if mode == Sampling && Filter(ValidRows(rows), IsWin) != [] && LeadRows(rows) != []
    then Some(RankBreakdown(rows))
    else None
  }

  /** The two data conditions of the rank chart, stated over the rows themselves. */
  lemma ChartConditions(rows: seq<Row>)
    ensures Filter(ValidRows(rows), IsWin) != [] <==> exists r :: r in rows && IsValid(r) && IsWin(r)
    ensures LeadRows(rows) != [] <==> exists r :: r in rows && IsLead(r)
  {
    var wins := Filter(ValidRows(rows), IsWin);
    if wins != [] {
      assert wins[0] in wins;
    }
    var leads := LeadRows(rows);
    if leads != [] {
      assert leads[0] in leads;
    }
  }

  function TotalCount(stats: seq<GroupStat>): nat {
    if stats == [] then 0 else stats[0].count + TotalCount(stats[1..])
  }

  function Occurrences(order: seq<string>, g: string): nat {
    if order == [] then 0 else (if order[0] == g then 1 else 0) + Occurrences(order[1..], g)
  }

  /** Groups absent from the lead rows add nothing to the total. */
  lemma {:induction false} OrderedTotal(order: seq<string>, leads: seq<Row>)
    ensures TotalCount(Breakdown(OrderedGroups(order, GroupsPresent(leads)), leads))
      == TotalCount(Breakdown(order, leads))
  {
    if order != [] {
      var g := order[0];
      var present := GroupsPresent(leads);
      OrderedTotal(order[1..], leads);
      if g in present {
        assert OrderedGroups(order, present)[1..] == OrderedGroups(order[1..], present);
      } else {
        assert OrderedGroups(order, present) == OrderedGroups(order[1..], present);
        AbsentGroupEmpty(leads, g);
      }
    }
  }

  /** A group that no row falls in has no rows. */
  lemma {:induction false} AbsentGroupEmpty(leads: seq<Row>, g: string)
    requires g !in GroupsPresent(leads)
    ensures GroupRows(leads, g) == []
  {
    if leads != [] {
      var init := leads[..|leads| - 1];
      var last := leads[|leads| - 1];
      assert GroupsPresent(init) <= GroupsPresent(leads);
      AbsentGroupEmpty(init, g);
    }
  }

  /** One more lead row adds one to the total for each time its group occurs in `order`. */
  lemma {:induction false} TotalAppend(order: seq<string>, leads: seq<Row>, r: Row)
    requires r.outcome.Success?
    ensures TotalCount(Breakdown(order, leads + [r]))
      == TotalCount(Breakdown(order, leads)) + Occurrences(order, RankGroup(r.outcome.medal))
  {
    if order != [] {
      var g := order[0];
      assert (leads + [r])[..|leads|] == leads;
      assert GroupRows(leads + [r], g) == GroupRows(leads, g) + (if InGroup(r, g) then [r] else []);
      TotalAppend(order[1..], leads, r);
    }
  }

  lemma {:induction false} OccursOnce(order: seq<string>, g: string)
    requires g in order
    requires forall i, j :: 0 <= i < j < |order| ==> order[i] != order[j]
    ensures Occurrences(order, g) == 1
  {
    if order[0] == g {
      assert g !in order[1..];
      NotOccurring(order[1..], g);
    } else {
      OccursOnce(order[1..], g);
    }
  }

  lemma {:induction false} NotOccurring(order: seq<string>, g: string)
    requires g !in order
    ensures Occurrences(order, g) == 0
  {
    if order != [] {
      NotOccurring(order[1..], g);
    }
  }

  /** With every lead medal in a known group, the group counts of the rank
      chart add up to the number of lead rows. */
  lemma {:induction false} BreakdownCoversLeads(rows: seq<Row>)
    requires forall r :: r in LeadRows(rows) ==> RankGroup(r.outcome.medal) in RankOrder
    ensures TotalCount(RankBreakdown(rows)) == |LeadRows(rows)|
  {
    var leads := LeadRows(rows);
    OrderedTotal(RankOrder, leads);
    TotalOverOrder(leads);
  }

  /** When every lead medal falls in a known group, a drawn chart accounts for every lead row. */
  lemma RankChartCoversLeads(mode: Mode, rows: seq<Row>)
    requires forall r :: r in LeadRows(rows) ==> RankGroup(r.outcome.medal) in RankOrder
    ensures RankChart(mode, rows).Some? ==>
      TotalCount(RankChart(mode, rows).value) == |LeadRows(rows)| > 0
  {
    BreakdownCoversLeads(rows);
  }

  lemma {:induction false} TotalOverOrder(leads: seq<Row>)
    requires forall r :: r in leads ==> r.outcome.Success? && RankGroup(r.outcome.medal) in RankOrder
    ensures TotalCount(Breakdown(RankOrder, leads)) == |leads|
  {
    if leads == [] {
      ZeroTotal(RankOrder);
    } else {
      var init := leads[..|leads| - 1];
      var r := leads[|leads| - 1];
      assert leads == init + [r];
      TotalOverOrder(init);
      TotalAppend(RankOrder, init, r);
      RankOrderDistinct();
      OccursOnce(RankOrder, RankGroup(r.outcome.medal));
    }
  }

  lemma RankOrderDistinct()
    ensures forall i, j :: 0 <= i < j < |RankOrder| ==> RankOrder[i] != RankOrder[j]
  {
  }

  lemma {:induction false} ZeroTotal(order: seq<string>)
    ensures TotalCount(Breakdown(order, [])) == 0
  {
    if order != [] {
      ZeroTotal(order[1..]);
    }
  }
}
