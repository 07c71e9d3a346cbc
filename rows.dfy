/** One result row per analysis job, and the flow that produces them. */
module Rows {
  import opened MatchData
  import opened Threshold
  import opened Retry
  import opened Jobs

  /** A row's status, with the fields that only successful rows carry. */
  datatype Outcome =
    | EconomyDataMissing
    | PlayerNotFound
    | Success(medal: string, hero: string, role: string, wonMatch: int, firstTo: FirstTo)

  datatype Row = Row(playerId: int, matchId: int, outcome: Outcome)

  /** The text written in the status column. */
  function StatusLabel(o: Outcome): (text: string)
    ensures text == "成功" <==> o.Success?
    ensures text == "经济数据缺失" <==> o.EconomyDataMissing?
    ensures text == "未找到玩家数据" <==> o.PlayerNotFound?
  {
    match o
    case EconomyDataMissing => "经济数据缺失"
    case PlayerNotFound => "未找到玩家数据"
    case Success(_, _, _, _, _) => "成功"
  }

  /** The players list of a record; an absent key reads as an empty list. */
  function PlayersOf(m: MatchDetail): seq<PlayerRecord> {
    match m.players
    case None => []
    case Some(ps) => ps
  }

  /** The player's side; a record without the flag counts as Radiant. */
  function IsRadiant(p: PlayerRecord): bool {
    match p.isRadiant
    case None => true
    case Some(b) => b
  }

  /** The winner flag; an absent flag counts as a Dire win. */
  function RadiantWin(m: MatchDetail): bool {
    match m.radiantWin
    case None => false
    case Some(b) => b
  }

  ghost predicate NoneMatchBefore(players: seq<PlayerRecord>, accountId: int, k: int)
    requires 0 <= k <= |players|
  {
    forall j :: 0 <= j < k ==> players[j].accountId != Some(accountId)
  }

  /** The first player record whose account id equals `accountId`. */
  function FindPlayer(players: seq<PlayerRecord>, accountId: int): (r: Option<PlayerRecord>)
    ensures r.None? <==> forall j :: 0 <= j < |players| ==> players[j].accountId != Some(accountId)
    ensures r.Some? ==> r.value.accountId == Some(accountId)
    ensures r.Some? ==>
      (exists k :: 0 <= k < |players| && players[k] == r.value && NoneMatchBefore(players, accountId, k))
  {
    if players == [] then None
    else if players[0].accountId == Some(accountId) then Some(players[0])
    else
      var r := FindPlayer(players[1..], accountId);
      assert forall j :: 1 <= j < |players| ==> players[j] == players[1..][j - 1];
      r
  }

  /** Medal label of a rank-tier code, "未定级" when the code is absent or unknown. */
  function MedalLabel(rankTier: Option<int>): string {
    if rankTier.Some? && rankTier.value in RankTiers then RankTiers[rankTier.value] else "未定级"
  }

  /** Hero name from the hero table, "未知" when the id is absent or unknown. */
  function HeroLabel(heroes: map<int, string>, heroId: Option<int>): string {
    if heroId.Some? && heroId.value in heroes then heroes[heroId.value] else "未知"
  }

  /** Lane-role label, "未知(<code>)" when the code is absent or unknown. */
  function RoleLabel(laneRole: Option<int>): string {
    if laneRole.Some? && laneRole.value in LaneRoles then LaneRoles[laneRole.value]
    else "未知(" + (match laneRole case None => "None" case Some(c) => IntToString(c)) + ")"
  }

  /** 1 when the player's side is the winning side, else 0. */
  function WonMatch(isRadiant: bool, radiantWin: bool): (w: int)
    ensures w == 0 || w == 1
    ensures w == 1 <==> isRadiant == radiantWin
  {
    if (isRadiant && radiantWin) || (!isRadiant && !radiantWin) then 1 else 0
  }

  /** The row for one job, given the outcome of the detail fetch. */
  function DeriveRow(job: Job, details: Option<MatchDetail>, heroes: map<int, string>, threshold: int): (row: Row)
    ensures row.playerId == job.playerId && row.matchId == job.matchId
    ensures row.outcome.EconomyDataMissing? <==> details.None?
    ensures row.outcome.PlayerNotFound? <==>
      details.Some? && FindPlayer(PlayersOf(details.value), job.playerId).None?
    ensures row.outcome.Success? ==>
      var p := FindPlayer(PlayersOf(details.value), job.playerId).value;
      && row.outcome.wonMatch == WonMatch(IsRadiant(p), RadiantWin(details.value))
      && row.outcome.firstTo == GetFirstToAdvantageThreshold(details.value, IsRadiant(p), threshold)
      && row.outcome.medal == MedalLabel(p.rankTier)
      && row.outcome.hero == HeroLabel(heroes, p.heroId)
      && row.outcome.role == RoleLabel(p.laneRole)
  {
    match details
    case None => Row(job.playerId, job.matchId, EconomyDataMissing)
    case Some(m) =>
      match FindPlayer(PlayersOf(m), job.playerId)
      case None => Row(job.playerId, job.matchId, PlayerNotFound)
      case Some(p) =>
        var isRadiant := IsRadiant(p);
        Row(job.playerId, job.matchId,
            Success(MedalLabel(p.rankTier), HeroLabel(heroes, p.heroId), RoleLabel(p.laneRole),
                    WonMatch(isRadiant, RadiantWin(m)),
                    GetFirstToAdvantageThreshold(m, isRadiant, threshold)))
  }

  /** The fallback medal label is never a real medal: a row says "未定级"
      exactly when the rank tier is absent or unknown. */
  lemma MedalFallbackExactly(rankTier: Option<int>)
    ensures MedalLabel(rankTier) == "未定级" <==> !(rankTier.Some? && rankTier.value in RankTiers)
  {
  }

  predicate IsFallbackRole(text: string) {
    |text| >= 3 && text[..3] == "未知("
  }

  /** A role label starts with "未知(" exactly when the lane role is absent or unknown. */
  lemma RoleFallbackExactly(laneRole: Option<int>)
    ensures IsFallbackRole(RoleLabel(laneRole)) <==> !(laneRole.Some? && laneRole.value in LaneRoles)
  {
    if laneRole.Some? && laneRole.value in LaneRoles {
      var code := laneRole.value;
      assert LaneRoles[code][0] != '未';
    } else {
      var text := RoleLabel(laneRole);
      assert text[..3] == "未知(";
    }
  }

  /** The result loop: fetch each job's details with retries and derive its
      row.  `fetches[i]` is what the detail requests of job `i` return;
      `fetchCount` and `delayCount` total the requests and the pauses. */
  method AnalyzeJobs(jobs: seq<Job>, fetches: seq<seq<Option<MatchDetail>>>, heroes: map<int, string>, threshold: int)
    returns (results: seq<Row>, fetchCount: nat, delayCount: nat)
    requires |fetches| == |jobs|
    requires forall i :: 0 <= i < |fetches| ==> |fetches[i]| >= RetryAttempts
    ensures |results| == |jobs|
    ensures forall i :: 0 <= i < |jobs| ==>
      results[i] == DeriveRow(jobs[i], RetryResult(fetches[i]), heroes, threshold)
    ensures forall i :: 0 <= i < |results| && results[i].outcome.Success? ==>
      results[i].outcome.firstTo.Flag? && (results[i].outcome.firstTo.bit == 0 || results[i].outcome.firstTo.bit == 1)
    ensures forall i :: 0 <= i < |results| && results[i].outcome.Success? ==>
      results[i].outcome.wonMatch == 0 || results[i].outcome.wonMatch == 1
    ensures |jobs| <= fetchCount <= RetryAttempts * |jobs|
    ensures delayCount == fetchCount - |jobs|
  {
    results, fetchCount, delayCount := [], 0, 0;
    for i := 0 to |jobs|
      invariant |results| == i
      invariant forall k :: 0 <= k < i ==> results[k] == DeriveRow(jobs[k], RetryResult(fetches[k]), heroes, threshold)
      invariant forall k :: 0 <= k < i && results[k].outcome.Success? ==>
        results[k].outcome.firstTo.Flag? && (results[k].outcome.firstTo.bit == 0 || results[k].outcome.firstTo.bit == 1)
      invariant forall k :: 0 <= k < i && results[k].outcome.Success? ==>
        results[k].outcome.wonMatch == 0 || results[k].outcome.wonMatch == 1
      invariant i <= fetchCount <= RetryAttempts * i
      invariant delayCount == fetchCount - i
    {
      var job := jobs[i];
      var matchDetails, attempts, delays := FetchAndAnalyzeMatch(fetches[i]);
      var row := DeriveRow(job, matchDetails, heroes, threshold);
      results := results + [row];
      fetchCount, delayCount := fetchCount + attempts, delayCount + delays;
    }
  }

  /** The analysis flow: enumerate the jobs, post the parse requests, then
      analyse every job.  `matchLists[i]` answers the recent-matches request
      for `players[i]`; `fetches[i]` answers the detail requests of job `i`. */
  method RunAnalysisFlow(players: seq<int>, matchLists: seq<Option<seq<int>>>,
                         fetches: seq<seq<Option<MatchDetail>>>, heroes: map<int, string>, threshold: int)
    returns (jobs: seq<Job>, requests: seq<int>, results: seq<Row>)
    requires |players| == |matchLists|
    requires |fetches| == |AllJobs(players, matchLists)|
    requires forall i :: 0 <= i < |fetches| ==> |fetches[i]| >= RetryAttempts
    ensures jobs == AllJobs(players, matchLists)
    ensures |results| == |jobs| == TotalMatches(matchLists)
    ensures NoDuplicates(requests)
    ensures forall x :: x in requests <==> x in MatchIds(jobs)
    ensures forall i :: 0 <= i < |jobs| ==>
      results[i] == DeriveRow(jobs[i], RetryResult(fetches[i]), heroes, threshold)
  {
    var processed;
    jobs, requests, processed := EnumerateJobs(players, matchLists);
    JobCount(players, matchLists);
    FirstOccurrencesNoDuplicates(MatchIds(jobs));
    FirstOccurrencesMembers(MatchIds(jobs));
    var fetchCount, delayCount;
    results, fetchCount, delayCount := AnalyzeJobs(jobs, fetches, heroes, threshold);
  }
}
