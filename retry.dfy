/** Fetching a match's detail record with a bounded number of attempts.  The
    web service is an oracle: `responses[n]` is what the n-th fetch of this
    match returns (`None` for a failed request). */
module Retry {
  import opened MatchData

  /** A response is kept when it is a record with a non-empty timeline. */
  predicate Acceptable(response: Option<MatchDetail>) {
    response.Some? && HasGoldAdv(response.value)
  }

  /** The position of the first acceptable response, if any. */
  function FirstAcceptable(responses: seq<Option<MatchDetail>>): (r: Option<nat>)
    ensures r.Some? ==> r.value < |responses| && Acceptable(responses[r.value])
    ensures r.Some? ==> forall j :: 0 <= j < r.value ==> !Acceptable(responses[j])
    ensures r.None? ==> forall j :: 0 <= j < |responses| ==> !Acceptable(responses[j])
  {
    if responses == [] then None
    else if Acceptable(responses[0]) then Some(0)
    else
      match FirstAcceptable(responses[1..])
      case None => None
      case Some(i) => Some(i + 1)
  }

  /** What the retry yields: the first acceptable one of the first
      `RetryAttempts` responses, or nothing. */
  function RetryResult(responses: seq<Option<MatchDetail>>): (r: Option<MatchDetail>)
    requires |responses| >= RetryAttempts
    ensures r.Some? ==> Acceptable(r)
    ensures r.None? <==> forall j :: 0 <= j < RetryAttempts ==> !Acceptable(responses[j])
  {
    match FirstAcceptable(responses[..RetryAttempts])
    case None => None
    case Some(i) => responses[i]
  }

  /** The retry loop.  `attempts` counts the fetches made and `delays` the
      pauses of `RetryDelaySeconds` taken between them. */
  method FetchAndAnalyzeMatch(responses: seq<Option<MatchDetail>>)
    returns (details: Option<MatchDetail>, attempts: nat, delays: nat)
    requires |responses| >= RetryAttempts
    ensures details == RetryResult(responses)
    ensures 1 <= attempts <= RetryAttempts
    ensures delays == attempts - 1
    ensures forall j :: 0 <= j < attempts - 1 ==> !Acceptable(responses[j])
    ensures details.Some? ==> details == responses[attempts - 1]
    ensures details.None? ==> attempts == RetryAttempts
  {
    details := None;
    attempts, delays := 0, 0;
    for attempt := 0 to RetryAttempts
      invariant attempts == attempt
      invariant delays == if attempt < RetryAttempts then attempt else RetryAttempts - 1
      invariant details.None?
      invariant forall j :: 0 <= j < attempt ==> !Acceptable(responses[j])
    {
      var detailsAttempt := responses[attempt];
      attempts := attempts + 1;
      if Acceptable(detailsAttempt) {
        details := detailsAttempt;
        break;
      } else if attempt < RetryAttempts - 1 {
        delays := delays + 1;
      }
    }
    ghost var prefix := responses[..RetryAttempts];
    assert forall j :: 0 <= j < attempts - 1 ==> prefix[j] == responses[j];
    assert details.Some? ==> FirstAcceptable(prefix) == Some(attempts - 1);
  }

  /** Two responses, neither with a gold-advantage timeline, yield no record. */
  lemma AlwaysMissingExample(m: MatchDetail)
    requires !HasGoldAdv(m)
    ensures RetryResult([Some(m), None]) == None
  {
  }
}
