/** Sampling mode: the other accounts met in the origin account's recent
    matches.  `details[i]` is what the detail request for the i-th recent
    match returns (`None` for a failed request); there is no retry here. */
module CoPlayers {
  import opened MatchData

  /** An account id that Python reads as true: present and non-zero. */
  predicate Truthy(accountId: Option<int>) {
    accountId.Some? && accountId.value != 0
  }

  /** The ids one match's player list contributes. */
  function MatchCoPlayers(origin: int, players: seq<PlayerRecord>): (ids: set<int>)
    ensures origin !in ids && 0 !in ids
  {
    if players == [] then {}
    else
      var p := players[|players| - 1];
      var earlier := MatchCoPlayers(origin, players[..|players| - 1]);
      if Truthy(p.accountId) && p.accountId.value != origin then earlier + {p.accountId.value} else earlier
  }

  /** The ids a fetched record contributes: none when the request failed or
      the record has no players list. */
  function DetailCoPlayers(origin: int, details: Option<MatchDetail>): set<int> {
    if details.Some? && details.value.players.Some? then MatchCoPlayers(origin, details.value.players.value) else {}
  }

  /** The sample set built from all fetched records. */
  function CoPlayerIds(origin: int, details: seq<Option<MatchDetail>>): set<int> {
    if details == [] then {}
    else CoPlayerIds(origin, details[..|details| - 1]) + DetailCoPlayers(origin, details[|details| - 1])
  }

  /** `a` is a truthy, non-origin account id listed in some fetched record. */
  ghost predicate Seen(origin: int, details: seq<Option<MatchDetail>>, a: int) {
    exists i, j :: 0 <= i < |details| && details[i].Some? && details[i].value.players.Some?
      && 0 <= j < |details[i].value.players.value|
      && details[i].value.players.value[j].accountId == Some(a)
      && a != 0 && a != origin
  }

  /** Every truthy non-origin id of one player list, and nothing else, is collected. */
  lemma {:induction false} MatchCoPlayersExactly(origin: int, players: seq<PlayerRecord>, a: int)
    ensures a in MatchCoPlayers(origin, players) <==>
      (a != 0 && a != origin && exists j :: 0 <= j < |players| && players[j].accountId == Some(a))
  {
    if players != [] {
      var init := players[..|players| - 1];
      MatchCoPlayersExactly(origin, init, a);
      if a != 0 && a != origin && exists j :: 0 <= j < |players| && players[j].accountId == Some(a) {
        var j :| 0 <= j < |players| && players[j].accountId == Some(a);
        if j < |players| - 1 {
          assert init[j] == players[j];
        }
      }
    }
  }

  /** The sample set holds exactly the truthy account ids, other than the
      origin's, listed in the fetched records. */
  lemma {:induction false} CoPlayerIdsExactly(origin: int, details: seq<Option<MatchDetail>>, a: int)
    ensures a in CoPlayerIds(origin, details) <==> Seen(origin, details, a)
  {
    if details != [] {
      var init := details[..|details| - 1];
      var last := details[|details| - 1];
      CoPlayerIdsExactly(origin, init, a);
      if last.Some? && last.value.players.Some? {
        MatchCoPlayersExactly(origin, last.value.players.value, a);
      }
      if Seen(origin, details, a) {
        var i, j :| 0 <= i < |details| && details[i].Some? && details[i].value.players.Some?
          && 0 <= j < |details[i].value.players.value|
          && details[i].value.players.value[j].accountId == Some(a)
          && a != 0 && a != origin;
        if i < |details| - 1 {
          assert init[i] == details[i];
        }
      }
      if Seen(origin, init, a) {
        var i, j :| 0 <= i < |init| && init[i].Some? && init[i].value.players.Some?
          && 0 <= j < |init[i].value.players.value|
          && init[i].value.players.value[j].accountId == Some(a)
          && a != 0 && a != origin;
        assert details[i] == init[i];
      }
    }
  }

  /** The origin account is never sampled. */
  lemma {:induction false} OriginNeverSampled(origin: int, details: seq<Option<MatchDetail>>)
    ensures origin !in CoPlayerIds(origin, details) && 0 !in CoPlayerIds(origin, details)
  {
    if details != [] {
      OriginNeverSampled(origin, details[..|details| - 1]);
    }
  }

  /** The collection loops: for every fetched record with a players list,
      add each truthy account id other than the origin's. */
  method CollectCoPlayers(origin: int, details: seq<Option<MatchDetail>>) returns (allPlayerIds: set<int>)
    ensures allPlayerIds == CoPlayerIds(origin, details)
    ensures origin !in allPlayerIds
  {
    allPlayerIds := {};
    for i := 0 to |details|
      invariant allPlayerIds == CoPlayerIds(origin, details[..i])
    {
      var matchDetails := details[i];
      if matchDetails.Some? && matchDetails.value.players.Some? {
        var players := matchDetails.value.players.value;
        for j := 0 to |players|
          invariant allPlayerIds == CoPlayerIds(origin, details[..i]) + MatchCoPlayers(origin, players[..j])
        {
          var player := players[j];
          if Truthy(player.accountId) && player.accountId.value != origin {
            allPlayerIds := allPlayerIds + {player.accountId.value};
          }
          assert players[..j + 1][..j] == players[..j];
        }
        assert players[..|players|] == players;
      }
      assert details[..i + 1][..i] == details[..i];
    }
    assert details[..|details|] == details;
    OriginNeverSampled(origin, details);
  }
}
