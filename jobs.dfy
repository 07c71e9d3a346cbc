/** Turning the sampled accounts into analysis jobs, and submitting each
    distinct match for parsing once.  The recent-matches list fetched for
    `players[i]` is the oracle value `responses[i]`: `None` for a failed
    request, otherwise the match ids of the returned summaries, in order. */
module Jobs {
  import opened MatchData

  /** One (match, account) pair to analyse. */
  datatype Job = Job(matchId: int, playerId: int)

  /** The jobs for one account: one per returned match; none when the request
      failed or returned an empty list. */
  function JobsFor(playerId: int, response: Option<seq<int>>): seq<Job> {
    match response
    case None => []
    case Some(ms) => AccountJobs(playerId, ms)
  }

  function AccountJobs(playerId: int, ms: seq<int>): seq<Job> {
    if ms == [] then [] else AccountJobs(playerId, ms[..|ms| - 1]) + [Job(ms[|ms| - 1], playerId)]
  }

  /** A failed request gives no jobs; otherwise job `k` is the k-th returned match. */
  lemma JobsForContents(playerId: int, response: Option<seq<int>>)
    ensures response.None? ==> JobsFor(playerId, response) == []
    ensures response.Some? ==> |JobsFor(playerId, response)| == |response.value|
    ensures response.Some? ==> forall k :: 0 <= k < |response.value| ==>
      JobsFor(playerId, response)[k] == Job(response.value[k], playerId)
  {
    if response.Some? {
      AccountJobsContents(playerId, response.value);
    }
  }

  lemma {:induction false} AccountJobsContents(playerId: int, ms: seq<int>)
    ensures |AccountJobs(playerId, ms)| == |ms|
    ensures forall k :: 0 <= k < |ms| ==> AccountJobs(playerId, ms)[k] == Job(ms[k], playerId)
  {
    if ms != [] {
      var init := ms[..|ms| - 1];
      AccountJobsContents(playerId, init);
      assert forall k :: 0 <= k < |init| ==> init[k] == ms[k];
    }
  }

  /** All jobs, account after account in the enumeration order. */
  function AllJobs(players: seq<int>, responses: seq<Option<seq<int>>>): seq<Job>
    requires |players| == |responses|
  {
    if players == [] then []
    else AllJobs(players[..|players| - 1], responses[..|responses| - 1])
         + JobsFor(players[|players| - 1], responses[|responses| - 1])
  }

  /** Number of matches the requests returned in total. */
  function TotalMatches(responses: seq<Option<seq<int>>>): nat {
    if responses == [] then 0
    else TotalMatches(responses[..|responses| - 1])
         + match responses[|responses| - 1] case None => 0 case Some(ms) => |ms|
  }

  /** The match ids of the jobs, in order. */
  function MatchIds(jobs: seq<Job>): seq<int> {
    if jobs == [] then [] else MatchIds(jobs[..|jobs| - 1]) + [jobs[|jobs| - 1].matchId]
  }

  /** The parse requests: each id of `ids` at its first occurrence. */
  function FirstOccurrences(ids: seq<int>): seq<int> {
    if ids == [] then []
    else
      var earlier := FirstOccurrences(ids[..|ids| - 1]);
      var last := ids[|ids| - 1];
      if last in ids[..|ids| - 1] then earlier else earlier + [last]
  }

  /** The set of ids seen so far. */
  function SeenIds(ids: seq<int>): (seen: set<int>)
    ensures forall x :: x in seen <==> x in ids
  {
    if ids == [] then {} else SeenIds(ids[..|ids| - 1]) + {ids[|ids| - 1]}
  }

  predicate NoDuplicates(s: seq<int>) {
    forall i, j :: 0 <= i < j < |s| ==> s[i] != s[j]
  }

  /** Every id of `ids`, and only those, is requested. */
  lemma {:induction false} FirstOccurrencesMembers(ids: seq<int>)
    ensures forall x :: x in FirstOccurrences(ids) <==> x in ids
  {
    if ids != [] {
      var init := ids[..|ids| - 1];
      FirstOccurrencesMembers(init);
      assert ids == init + [ids[|ids| - 1]];
    }
  }

  /** No id is requested twice. */
  lemma {:induction false} FirstOccurrencesNoDuplicates(ids: seq<int>)
    ensures NoDuplicates(FirstOccurrences(ids))
  {
    if ids != [] {
      var init := ids[..|ids| - 1];
      FirstOccurrencesNoDuplicates(init);
      FirstOccurrencesMembers(init);
    }
  }

  /** The number of jobs is the number of matches the requests returned. */
  lemma {:induction false} JobCount(players: seq<int>, responses: seq<Option<seq<int>>>)
    requires |players| == |responses|
    ensures |AllJobs(players, responses)| == TotalMatches(responses)
  {
    if players != [] {
      JobCount(players[..|players| - 1], responses[..|responses| - 1]);
      JobsForContents(players[|players| - 1], responses[|responses| - 1]);
    }
  }

  /** The jobs of the first `i + 1` accounts extend those of the first `i`. */
  lemma AllJobsStep(players: seq<int>, responses: seq<Option<seq<int>>>, i: nat)
    requires |players| == |responses| && i < |players|
    ensures AllJobs(players[..i + 1], responses[..i + 1])
      == AllJobs(players[..i], responses[..i]) + JobsFor(players[i], responses[i])
  {
    assert players[..i + 1][..i] == players[..i];
    assert responses[..i + 1][..i] == responses[..i];
  }

  /** The loop step keeps `requests` and `processed` in step with the jobs. */
  lemma RecordJob(jobs: seq<Job>, requests: seq<int>, processed: set<int>, job: Job)
    requires requests == FirstOccurrences(MatchIds(jobs))
    requires processed == SeenIds(MatchIds(jobs))
    ensures (if job.matchId in processed then requests else requests + [job.matchId])
      == FirstOccurrences(MatchIds(jobs + [job]))
    ensures (if job.matchId in processed then processed else processed + {job.matchId})
      == SeenIds(MatchIds(jobs + [job]))
  {
  }

  lemma AccountJobsStep(jobs0: seq<Job>, playerId: int, ms: seq<int>, j: nat)
    requires j < |ms|
    ensures jobs0 + AccountJobs(playerId, ms[..j + 1]) == (jobs0 + AccountJobs(playerId, ms[..j])) + [Job(ms[j], playerId)]
  {
    assert ms[..j + 1][..j] == ms[..j];
  }

  /** Duplicated match ids keep all their jobs but get a single request. */
  lemma DedupExample()
    ensures FirstOccurrences([7, 7, 9]) == [7, 9]
    ensures |AllJobs([1, 2], [Some([7]), Some([7, 9])])| == 3
  {
    assert [7, 7, 9][..2] == [7, 7];
    assert [7, 7, 9][..2][..1] == [7];
    assert [1, 2][..1] == [1];
  }

  /** The inner loop over one account's returned matches: append one job per
      match and post a parse request for an id not seen before. */
  method EnumerateAccountMatches(playerId: int, ms: seq<int>, jobs0: seq<Job>, requests0: seq<int>, processed0: set<int>)
    returns (jobs: seq<Job>, requests: seq<int>, processed: set<int>)
    requires requests0 == FirstOccurrences(MatchIds(jobs0))
    requires processed0 == SeenIds(MatchIds(jobs0))
    ensures jobs == jobs0 + JobsFor(playerId, Some(ms))
    ensures requests == FirstOccurrences(MatchIds(jobs))
    ensures processed == SeenIds(MatchIds(jobs))
  {
    jobs, requests, processed := jobs0, requests0, processed0;
    for j := 0 to |ms|
      invariant jobs == jobs0 + AccountJobs(playerId, ms[..j])
      invariant requests == FirstOccurrences(MatchIds(jobs))
      invariant processed == SeenIds(MatchIds(jobs))
    {
      var matchId := ms[j];
      RecordJob(jobs, requests, processed, Job(matchId, playerId));
      AccountJobsStep(jobs0, playerId, ms, j);
      jobs := jobs + [Job(matchId, playerId)];
      if matchId !in processed {
        requests := requests + [matchId];
        processed := processed + {matchId};
      }
    }
    assert ms[..|ms|] == ms;
  }

  /** The enumeration loop of the analysis flow, over the sampled accounts in
      enumeration order.  `requests` lists the posted ids in posting order;
      `processed` is the set of seen ids. */
  method EnumerateJobs(players: seq<int>, responses: seq<Option<seq<int>>>)
    returns (jobs: seq<Job>, requests: seq<int>, processed: set<int>)
    requires |players| == |responses|
    ensures jobs == AllJobs(players, responses)
    ensures requests == FirstOccurrences(MatchIds(jobs))
    ensures processed == SeenIds(MatchIds(jobs))
  {
    jobs, requests, processed := [], [], {};
    for i := 0 to |players|
      invariant jobs == AllJobs(players[..i], responses[..i])
      invariant requests == FirstOccurrences(MatchIds(jobs))
      invariant processed == SeenIds(MatchIds(jobs))
    {
      var matchesToFetch := responses[i];
      if matchesToFetch.Some? {
        jobs, requests, processed := EnumerateAccountMatches(players[i], matchesToFetch.value, jobs, requests, processed);
      }
      AllJobsStep(players, responses, i);
    }
    assert players[..|players|] == players;
    assert responses[..|responses|] == responses;
  }
}
