/** Which side first reaches a gold-advantage threshold, seen from one
    player's side. */
module Threshold {
  import opened MatchData

  /** The value the evaluator stores in a row: the sentinel "N/A" when the
      match has no timeline, otherwise 1 (the player's side got there first)
      or 0 (the other side did, or nobody did). */
  datatype FirstTo = NotAvailable | Flag(bit: int)

  /** One timeline entry is at least `threshold` away from even, either way. */
  predicate Crosses(adv: int, threshold: int) {
    adv >= threshold || adv <= -threshold
  }

  /** The crossing entry `adv` favours the player's side. */
  predicate ViewerAhead(adv: int, isRadiant: bool, threshold: int) {
    if isRadiant then adv >= threshold else adv <= -threshold
  }

  /** Entry `k` is the earliest entry that crosses the threshold. */
  ghost predicate FirstCrossingAt(advs: seq<int>, threshold: int, k: int) {
    && 0 <= k < |advs|
    && Crosses(advs[k], threshold)
    && forall j :: 0 <= j < k ==> !Crosses(advs[j], threshold)
  }

  ghost predicate HasCrossing(advs: seq<int>, threshold: int) {
    exists k :: 0 <= k < |advs| && Crosses(advs[k], threshold)
  }

  /** The scan over the timeline: stop at the first entry that reaches
      `threshold` for Radiant, or `-threshold` for Dire; 0 when none does. */
  function Scan(advs: seq<int>, isRadiant: bool, threshold: int): (r: int)
    ensures r == 0 || r == 1
  {
    if advs == [] then 0
    else if advs[0] >= threshold then (if isRadiant then 1 else 0)
    else if advs[0] <= -threshold then (if isRadiant then 0 else 1)
    else Scan(advs[1..], isRadiant, threshold)
  }

  /** The evaluator on a whole match record. */
  function GetFirstToAdvantageThreshold(m: MatchDetail, isRadiant: bool, threshold: int): (r: FirstTo)
    ensures r.NotAvailable? <==> !HasGoldAdv(m)
    ensures r.Flag? ==> r.bit == 0 || r.bit == 1
  {
    if !HasGoldAdv(m) then NotAvailable
    else Flag(Scan(m.radiantGoldAdv.value, isRadiant, threshold))
  }

  /** Entries before the first crossing are skipped: the first crossing of a
      timeline whose head does not cross is one place later than in its tail. */
  lemma FirstCrossingShift(advs: seq<int>, threshold: int, k: int)
    requires advs != [] && !Crosses(advs[0], threshold)
    ensures FirstCrossingAt(advs, threshold, k + 1) <==> FirstCrossingAt(advs[1..], threshold, k)
  {
  }

  /** First-hit rule: with a positive threshold the evaluator says 1 exactly
      when some entry crosses and the earliest crossing favours the player. */
  lemma {:induction false} ScanFirstHit(advs: seq<int>, isRadiant: bool, threshold: int)
    requires threshold > 0
    ensures Scan(advs, isRadiant, threshold) == 1 <==>
      exists k :: FirstCrossingAt(advs, threshold, k) && ViewerAhead(advs[k], isRadiant, threshold)
  {
    if advs == [] {
    } else if Crosses(advs[0], threshold) {
      assert FirstCrossingAt(advs, threshold, 0);
      forall k | FirstCrossingAt(advs, threshold, k) ensures k == 0 {
      }
    } else {
      var tail := advs[1..];
      ScanFirstHit(tail, isRadiant, threshold);
      if exists k :: FirstCrossingAt(advs, threshold, k) && ViewerAhead(advs[k], isRadiant, threshold) {
        var k :| FirstCrossingAt(advs, threshold, k) && ViewerAhead(advs[k], isRadiant, threshold);
        assert k != 0;
        FirstCrossingShift(advs, threshold, k - 1);
        assert tail[k - 1] == advs[k];
      }
      if exists k :: FirstCrossingAt(tail, threshold, k) && ViewerAhead(tail[k], isRadiant, threshold) {
        var k :| FirstCrossingAt(tail, threshold, k) && ViewerAhead(tail[k], isRadiant, threshold);
        FirstCrossingShift(advs, threshold, k);
        assert advs[k + 1] == tail[k];
      }
    }
  }

  /** A timeline that never reaches the threshold either way gives 0. */
  lemma {:induction false} NoCrossingGivesZero(advs: seq<int>, isRadiant: bool, threshold: int)
    requires !HasCrossing(advs, threshold)
    ensures Scan(advs, isRadiant, threshold) == 0
  {
    if advs != [] {
      assert !Crosses(advs[0], threshold);
      forall k | 0 <= k < |advs[1..]| ensures !Crosses(advs[1..][k], threshold) {
        assert advs[1..][k] == advs[k + 1];
      }
      NoCrossingGivesZero(advs[1..], isRadiant, threshold);
    }
  }

  /** Entries after the first crossing never change the result. */
  lemma {:induction false} ScanIgnoresTail(advs: seq<int>, rest: seq<int>, isRadiant: bool, threshold: int, k: int)
    requires FirstCrossingAt(advs, threshold, k)
    ensures Scan(advs[..k + 1] + rest, isRadiant, threshold) == Scan(advs, isRadiant, threshold)
  {
    var cut := advs[..k + 1] + rest;
    assert cut[0] == advs[0];
    if k > 0 {
      assert !Crosses(advs[0], threshold);
      FirstCrossingShift(advs, threshold, k - 1);
      assert cut[1..] == advs[1..][..k] + rest;
      ScanIgnoresTail(advs[1..], rest, isRadiant, threshold, k - 1);
    }
  }

  /** Side symmetry: when some entry crosses, the two sides get opposite
      answers; when none does, both sides get 0. */
  lemma {:induction false} SideSymmetry(advs: seq<int>, threshold: int)
    requires threshold > 0
    ensures HasCrossing(advs, threshold) ==> Scan(advs, true, threshold) + Scan(advs, false, threshold) == 1
    ensures !HasCrossing(advs, threshold) ==> Scan(advs, true, threshold) == 0 && Scan(advs, false, threshold) == 0
  {
    if advs == [] {
    } else if Crosses(advs[0], threshold) {
    } else {
      SideSymmetry(advs[1..], threshold);
      if HasCrossing(advs, threshold) {
        var k :| 0 <= k < |advs| && Crosses(advs[k], threshold);
        assert advs[1..][k - 1] == advs[k];
      } else {
        forall k | 0 <= k < |advs[1..]| ensures !Crosses(advs[1..][k], threshold) {
          assert advs[1..][k] == advs[k + 1];
        }
      }
    }
  }

  /** The worked examples for a threshold of 5000, seen from Radiant. */
  lemma WorkedExamples()
    ensures Scan([3000, -6000, 100], true, 5000) == 0
    ensures Scan([1000, 2000, 3000], true, 5000) == 0
    ensures Scan([6000], true, 5000) == 1
    ensures GetFirstToAdvantageThreshold(MatchDetail(Some([]), None, None), true, 5000) == NotAvailable
  {
  }
}
