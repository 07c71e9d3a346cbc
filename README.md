# Dota 2 advantage/win-rate analyser — verified model of its core

The analyser fetches recent matches of a Dota 2 account from the OpenDota web
service and checks one question. When a team is the first to reach a chosen
gold-advantage threshold, how often does it win? It then writes a spreadsheet
and charts. This project models the deterministic core of
`dota_analyzer_interactive.py` in Dafny and proves properties of it. Every
answer from the web service is an input value here, never a call:

- `match_data.dfy` (`MatchData`): the JSON records as datatypes. A key that
  may be missing is an `Option` field. Also the constant tables `RANK_TIERS`
  and `LANE_ROLES`, and `RETRY_ATTEMPTS` / `RETRY_DELAY_SECONDS`.
- `threshold.dfy` (`Threshold`): the threshold-crossing evaluator. `Scan`
  walks the gold-advantage timeline with the same early returns as the
  source. It is compared with a reference built on quantifiers: "the earliest
  entry whose magnitude reaches the threshold".
- `retry.dfy` (`Retry`): the detail fetch with at most `RetryAttempts`
  attempts. `responses[n]` is what the n-th fetch returns. The method counts
  the attempts and the pauses.
- `jobs.dfy` (`Jobs`): the job loop of `run_analysis_flow`. It makes one job
  per (account, returned match) and posts a parse request for each match id at
  its first occurrence.
- `rows.dfy` (`Rows`): one result row per job, with exactly one status
  (datatype `Outcome`), the table fallbacks, `Won_Match`, and the result loop.
  `RunAnalysisFlow` chains the job loop and the result loop.
- `coplayers.dfy` (`CoPlayers`): the sampling-mode collection of the other
  players' account ids.
- `report.dfy` (`Report`): the counting part of the report. It covers the
  valid-row filter, lead and comeback counts, win composition and rates. Rates
  are `Ratio(num, den)` pairs, not percentages. It also covers the rank group
  of a medal label and the per-group breakdown in the fixed `rank_order`.

Rank groups are taken from the medal label: the group is the text before its
first space (line 275), so "传奇 III" falls in "传奇" and "未定级" is a group of
its own. `MedalGroupKnown` proves that every label a row can carry falls in
one of the groups of `rank_order`.

## Model

| member | source | states |
|---|---|---|
| `Threshold.Scan` | dota_analyzer_interactive.py:64-67 | the scan's answer is always 0 or 1 |
| `Threshold.GetFirstToAdvantageThreshold` | dota_analyzer_interactive.py:62-67 | the result is "N/A" exactly when the timeline is absent or empty; otherwise it is a 0/1 flag |
| `Threshold.ScanFirstHit` | dota_analyzer_interactive.py:64-66 | for a positive threshold, the answer is 1 iff some entry crosses ±threshold and the earliest crossing favours the player's side (≥ threshold for Radiant, ≤ −threshold for Dire) |
| `Threshold.NoCrossingGivesZero` | dota_analyzer_interactive.py:67 | a timeline that never reaches ±threshold gives 0 for either side |
| `Threshold.ScanIgnoresTail` | dota_analyzer_interactive.py:64-66 | entries after the first crossing never change the answer: any tail may replace them |
| `Threshold.SideSymmetry` | dota_analyzer_interactive.py:65-67 | when a crossing exists the Radiant and Dire answers sum to 1 (flipping the side flips the answer); without one both are 0 |
| `Threshold.WorkedExamples` | dota_analyzer_interactive.py:62-67 | [3000, −6000, 100] gives 0, [1000, 2000, 3000] gives 0 and [6000] gives 1 at threshold 5000; an empty timeline gives "N/A" |
| `Retry.FirstAcceptable` | dota_analyzer_interactive.py:121-127 | returns the position of the first response with a non-empty timeline, and no earlier response qualifies; None when none qualifies |
| `Retry.RetryResult` | dota_analyzer_interactive.py:119-133 | the retry yields an acceptable record, or nothing exactly when none of the first `RETRY_ATTEMPTS` responses is acceptable |
| `Retry.FetchAndAnalyzeMatch` | dota_analyzer_interactive.py:119-133 | makes 1 to `RETRY_ATTEMPTS` (2) fetches and pauses exactly once fewer (at most once). It returns the first acceptable response, which is the last one fetched. Every earlier response was unacceptable. Returning nothing means all attempts were used |
| `Retry.AlwaysMissingExample` | dota_analyzer_interactive.py:121-133 | two responses without a timeline give no record |
| `Jobs.JobsForContents` | dota_analyzer_interactive.py:147-151 | a failed request gives no jobs; otherwise one job per returned match, in order, carrying that match id and the account |
| `Jobs.JobCount` | dota_analyzer_interactive.py:145-151 | the number of jobs equals the total length of all returned match lists |
| `Jobs.FirstOccurrencesMembers` | dota_analyzer_interactive.py:152-154 | a parse request is posted for a match id iff some job has that id |
| `Jobs.FirstOccurrencesNoDuplicates` | dota_analyzer_interactive.py:152-154 | no match id is posted twice |
| `Jobs.RecordJob` | dota_analyzer_interactive.py:151-154 | appending one job posts its id iff the id was not processed before, and keeps both the request list and the processed set in step with the jobs |
| `Jobs.DedupExample` | dota_analyzer_interactive.py:149-154 | jobs with ids A, A, B post requests for A and B only, and all three jobs remain |
| `Jobs.EnumerateAccountMatches` | dota_analyzer_interactive.py:149-154 | the inner loop appends one job per match. It keeps `requests` equal to the first occurrences of the job ids and `processed` equal to the set of job ids |
| `Jobs.EnumerateJobs` | dota_analyzer_interactive.py:143-154 | the job list is all accounts' jobs in enumeration order; the posted ids are the first occurrences of the job ids; `unique_match_ids_processed` ends as the set of all job ids |
| `Rows.FindPlayer` | dota_analyzer_interactive.py:168 | returns nothing iff no player record carries the account id; otherwise the earliest record that does |
| `Rows.WonMatch` | dota_analyzer_interactive.py:172 | `Won_Match` is 0 or 1, and 1 iff the player's side equals the winning side |
| `Rows.DeriveRow` | dota_analyzer_interactive.py:164-181 | keeps the job's ids. Status is "missing economy data" iff no details were obtained. It is "player not found" iff details exist but no record matches. Otherwise it is success, with `Won_Match` 1 if side (default Radiant) equals winner (default Dire) and 0 otherwise, the evaluator's value for that side, and the table labels |
| `Rows.MedalFallbackExactly` | dota_analyzer_interactive.py:174 | the medal reads "未定级" exactly when the rank tier is absent or not in `RANK_TIERS` |
| `Rows.RoleFallbackExactly` | dota_analyzer_interactive.py:176 | the role label starts with "未知(" exactly when the lane role is absent or not in `LANE_ROLES` |
| `Rows.AnalyzeJobs` | dota_analyzer_interactive.py:157-182 | one row per job, in order, each the derivation from that job's retried fetch. Every success row carries a 0/1 threshold value (never "N/A") and a 0/1 `Won_Match`. In total, between one and two fetches per job (at least the number of jobs, at most twice it), and as many pauses as fetches beyond one per job |
| `Rows.RunAnalysisFlow` | dota_analyzer_interactive.py:139-183 | rows = jobs = total returned matches; parse requests are duplicate-free and cover exactly the job match ids; row i derives from job i |
| `CoPlayers.MatchCoPlayers` | dota_analyzer_interactive.py:335-337 | the ids taken from one player list never include the origin account or 0 |
| `CoPlayers.MatchCoPlayersExactly` | dota_analyzer_interactive.py:335-337 | an id is taken from a player list iff it is non-zero, differs from the origin and is some player's account id |
| `CoPlayers.CoPlayerIdsExactly` | dota_analyzer_interactive.py:329-337 | the sample set holds exactly the truthy account ids other than the origin's, listed in a fetched record that has a players list |
| `CoPlayers.OriginNeverSampled` | dota_analyzer_interactive.py:336 | the origin account (and id 0) is never in the sample set |
| `CoPlayers.CollectCoPlayers` | dota_analyzer_interactive.py:329-337 | the nested loops build exactly the sample set, which excludes the origin |
| `Report.Filter` | dota_analyzer_interactive.py:202 | a filtered table keeps exactly the rows meeting the condition, each as often as the table holds it (multiset), and drops every other row |
| `Report.FilterPartition` | dota_analyzer_interactive.py:213-224 | two complementary conditions split a table: their filtered sizes add up to its size |
| `Report.ValidPartition` | dota_analyzer_interactive.py:202-224 | lead rows plus comeback candidates equal the valid rows (threshold value 0 or 1) |
| `Report.WinComposition` | dota_analyzer_interactive.py:258-260 | valid wins = wins after leading + comeback wins |
| `Report.RateOf` | dota_analyzer_interactive.py:217-231 | a rate exists iff the conditioning set is non-empty, and then it is wins over the set's size, with wins ≤ size |
| `Report.Summarize` | dota_analyzer_interactive.py:202-233 | no statistics iff no valid row. Otherwise it gives the valid and lead counts. The lead win rate exists iff some row led, as wins/leads. The comeback rate exists iff some valid row did not lead, as wins/(valid − leads). The numerators are the winning lead rows and the winning comeback candidates |
| `Report.FullReportHasStats` | dota_analyzer_interactive.py:194-214 | when the threshold column exists and every success row has a 0/1 value, the summary has statistics |
| `Report.RankGroup` | dota_analyzer_interactive.py:275 | the group is the prefix of the medal label before its first space (no space in it, and a space or the end follows it) |
| `Report.RankGroupUnique` | dota_analyzer_interactive.py:275 | those three properties determine the group |
| `Report.MedalGroupKnown` | dota_analyzer_interactive.py:13-19 | every medal label a row can carry (a `RANK_TIERS` value or "未定级") has its group in `rank_order` |
| `Report.DerivedMedalKnown` | dota_analyzer_interactive.py:174 | a success row built from any fetch has a medal whose group is in `rank_order` |
| `Report.OrderedGroups` | dota_analyzer_interactive.py:285-286 | the ordered index holds exactly the entries of `rank_order` present in the data, in `rank_order`'s order (a subsequence of it) |
| `Report.RankBreakdown` | dota_analyzer_interactive.py:279-287 | the chart lists exactly the `rank_order` groups present among lead rows, in `rank_order`'s order. Each entry's count is the number of lead rows of its group (at least one), and its wins are the winning ones among them |
| `Report.BreakdownAt` | dota_analyzer_interactive.py:281-282 | entry k of a per-group breakdown is group k with its lead-row count and win count |
| `Report.ReportKindOf` | dota_analyzer_interactive.py:191-199 | no report iff there are no rows. A partial export iff there are rows and none succeeded, so the threshold column was never created. Otherwise a full report, which needs a success row |
| `Report.RankChart` | dota_analyzer_interactive.py:258-287 | the rank chart is drawn iff the mode is sampling, some valid row is a win and some valid row led. A drawn chart gives every group at least one sample |
| `Report.RankChartCoversLeads` | dota_analyzer_interactive.py:273-287 | when every lead medal is in a known group, a drawn chart's counts add up to the (positive) number of lead rows |
| `Rows.StatusLabel` | dota_analyzer_interactive.py:166-181 | the three statuses have three distinct labels: "成功" exactly for success, "经济数据缺失" exactly for missing economy data, "未找到玩家数据" exactly for a missing player |
| `Report.BreakdownCoversLeads` | dota_analyzer_interactive.py:279-287 | when every lead medal is in a known group, the per-group sample counts add up to the number of lead rows |

## Left out

- HTTP calls (`get_api_data`, `post_api_request`), URLs and the 1.2 s pacing sleeps: every response is an input. A failed request is `None`. A parse request is the id recorded in the `requests` output.
- `time.sleep(RETRY_DELAY_SECONDS)`: modelled only as the `delays` counter.
- The `limit` query parameter: the returned match lists are inputs, so nothing bounds their length by the scan count.
- Interactive prompting (`get_user_input`): only its outcome matters. It guarantees a positive threshold, which the lemmas that need it require.
- The mode dispatch in `__main__`: personal mode scans the one-element set `{account_id}`. Sampling mode passes the co-player set with limit 1. Both reach `RunAnalysisFlow` with the account list as input. An empty recent-matches list skips the flow in sampling mode.
- The enumeration order of `list(player_ids_to_scan)`: the accounts are given as a sequence in any order, and the count and set properties do not depend on it.
- The `/heroes` request and the crash when it fails: the hero table is an input map.
- The printed progress messages, spreadsheet writing, file names, the column rename in personal mode, fonts and chart drawing.
- Float percentages and `%.2f` formatting: rates are `Ratio(wins, samples)`. The "0% (无此类样本)" and "N/A (无劣势对局样本)" texts are both `NoSamples`.
- JSON `null` for a key that is present is read like an absent key, which differs from the source in three places. `players: null` makes the source raise a `TypeError` when it iterates the list (line 168); the model gives "player not found". `isRadiant: null` is falsy, so the source takes the Dire branch (lines 170-172); the model applies the default and treats the player as Radiant. In sampling mode, `'players' in match_details` holds for `players: null` (line 334), and iterating `None` on line 335 raises a `TypeError` that ends the collection; `CoPlayers.DetailCoPlayers` skips such a record instead. A match summary without `match_id` (a `KeyError` in the source) is not modelled.
- `Threshold.ScanFirstHit`, `Threshold.SideSymmetry`: stated for a positive threshold only, which input validation guarantees. For a threshold ≤ 0 an entry can satisfy both tests, and the Radiant test wins.
