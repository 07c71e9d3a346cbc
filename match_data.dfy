/** The records the match-statistics web service returns, as the analyser reads
    them, and the analyser's constant tables.  A JSON object whose keys may be
    missing is a datatype whose fields are `Option`s: `None` means the key is
    absent. */
module MatchData {

  datatype Option<+T> = None | Some(value: T)

  /** One entry of a match's `players` list. */
  datatype PlayerRecord = PlayerRecord(
    accountId: Option<int>,
    isRadiant: Option<bool>,
    heroId: Option<int>,
    laneRole: Option<int>,
    rankTier: Option<int>)

  /** The detail record of one match: the Radiant gold-advantage timeline
      (positive: Radiant ahead), the winner flag and the players. */
  datatype MatchDetail = MatchDetail(
    radiantGoldAdv: Option<seq<int>>,
    radiantWin: Option<bool>,
    players: Option<seq<PlayerRecord>>)

  /** Number of detail fetches per match and the pause between two of them. */
  const RetryAttempts: nat := 2
  const RetryDelaySeconds: nat := 5

  /** Rank-tier codes and their medal labels. */
  const RankTiers: map<int, string> := map[
    11 := "先锋 I", 12 := "先锋 II", 13 := "先锋 III", 14 := "先锋 IV", 15 := "先锋 V",
    21 := "卫士 I", 22 := "卫士 II", 23 := "卫士 III", 24 := "卫士 IV", 25 := "卫士 V",
    31 := "中军 I", 32 := "中军 II", 33 := "中军 III", 34 := "中军 IV", 35 := "中军 V",
    41 := "统帅 I", 42 := "统帅 II", 43 := "统帅 III", 44 := "统帅 IV", 45 := "统帅 V",
    51 := "传奇 I", 52 := "传奇 II", 53 := "传奇 III", 54 := "传奇 IV", 55 := "传奇 V",
    61 := "万古 I", 62 := "万古 II", 63 := "万古 III", 64 := "万古 IV", 65 := "万古 V",
    71 := "超凡 I", 72 := "超凡 II", 73 := "超凡 III", 74 := "超凡 IV", 75 := "超凡 V",
    80 := "冠绝"]

  /** Lane-role codes and their labels. */
  const LaneRoles: map<int, string> := map[1 := "优势路", 2 := "中路", 3 := "劣势路", 4 := "游走"]

  /** The record carries a non-empty gold-advantage timeline (the key is
      present and its list is truthy). */
  predicate HasGoldAdv(m: MatchDetail) {
    m.radiantGoldAdv.Some? && m.radiantGoldAdv.value != []
  }

  predicate IsDigit(c: char) { '0' <= c <= '9' }

  /** Decimal text of a natural number, as `str` writes it. */
  function NatToString(n: nat): (s: string)
    ensures |s| >= 1 && forall k :: 0 <= k < |s| ==> IsDigit(s[k])
    ensures n < 10 <==> |s| == 1
    decreases n
  {
    if n < 10 then ["0123456789"[n]] else NatToString(n / 10) + ["0123456789"[n % 10]]
  }

  /** Decimal text of an integer, with a leading '-' when it is negative. */
  function IntToString(i: int): (s: string)
    ensures |s| >= 1
    ensures (s[0] == '-') <==> i < 0
  {
    if i < 0 then "-" + NatToString(-i) else NatToString(i)
  }
}
