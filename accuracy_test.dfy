/** The accuracy evaluation: a sampled query succeeds when a result within
    the top 50 matches its expected food, and the test demands that at
    least 85% of the queries succeed. */
module AccuracyTest {
  import opened Common
  import opened Requests
  import opened Ranking
  import opened Samples
  import MrrTest

  const TopN: nat := 50

  /** The reasons a worker reports. The `'exhausted'` fall-through after the
      retry loop has none: it is unreachable. */
  datatype Reason = Found | NotFound | Initializing

  datatype Verdict = Verdict(ok: bool, reason: Reason)

  /** `top.some(...)`: a result among the first 50 matches. */
  predicate FoundIn(body: seq<Item>, expected: string) {
    exists i :: 0 <= i < Min(TopN, |body|) && Hit(body[i], expected)
  }

  function VerdictOf(service: Service, expected: string): (r: Checked<Verdict>)
    ensures r.Passed? ==> (r.value.ok <==> r.value.reason == Found)
  {
    match Fetch(service)
    case GaveUp => Passed(Verdict(false, Initializing))
    case Answered(_, res) =>
      if res.status != Ok || res.body.None? then ExpectFailed
      else
        var found := FoundIn(res.body.value, expected);
        Passed(Verdict(found, if found then Found else NotFound))
  }

  method Worker(service: Service, expected: string) returns (r: Checked<Verdict>)
    ensures r == VerdictOf(service, expected)
  {
    var attempt := FetchWithRetries(service);
    if attempt.GaveUp? {
      return Passed(Verdict(false, Initializing));
    }
    var res := attempt.response;
    if res.status != Ok || res.body.None? {
      return ExpectFailed;
    }
    var top := res.body.value[..Min(TopN, |res.body.value|)];
    var found := exists i :: 0 <= i < |top| && Hit(top[i], expected);
    return Passed(Verdict(found, if found then Found else NotFound));
  }

  /** The accuracy verdict agrees with the MRR evaluation: a query succeeds
      exactly when its reciprocal rank at 50 is positive, and then the
      reason is `'found'`. */
  lemma VerdictMatchesRank(service: Service, expected: string)
    requires VerdictOf(service, expected).Passed?
    ensures var v := VerdictOf(service, expected).value;
            (v.ok <==> MrrTest.WorkerResult(service, expected).value.at50 > 0.0)
            && (v.ok <==> v.reason == Found)
  {
    match Fetch(service)
    case GaveUp =>
    case Answered(_, res) =>
      var body := res.body.value;
      MrrTest.WorkerRanksWholeReply(service, expected);
      RRMeaning(body, expected, 50);
  }

  /** A query the service keeps refusing with 503 five times fails with
      the reason `'503-initializing'`. */
  lemma VerdictInitializing(service: Service, expected: string)
    requires forall b :: 1 <= b <= MaxRetries ==> service(b).status == Unavailable
    ensures VerdictOf(service, expected) == Passed(Verdict(false, Initializing))
  {
    FetchOutcome(service);
  }

  function PairVerdict(search: MrrTest.SearchService, p: Pair): Checked<Verdict> {
    VerdictOf(search(p.searchTerm), p.expected)
  }

  /** The verdicts of the sampled pairs in order, or None when some worker
      fails its `expect`. */
  function Verdicts(search: MrrTest.SearchService, ps: seq<Pair>): Option<seq<Verdict>>
    decreases |ps|
  {
    if ps == [] then Some([])
    else
      match Verdicts(search, ps[..|ps| - 1])
      case None => None
      case Some(vs) =>
        var r := PairVerdict(search, ps[|ps| - 1]);
        if r.ExpectFailed? then None else Some(vs + [r.value])
  }

  /** The verdicts exist exactly when no worker fails, and are then the
      workers' verdicts, one per pair, in pair order. */
  lemma {:induction false} VerdictsMeaning(search: MrrTest.SearchService, ps: seq<Pair>)
    ensures Verdicts(search, ps).Some? <==> forall k :: 0 <= k < |ps| ==> PairVerdict(search, ps[k]).Passed?
    ensures Verdicts(search, ps).Some? ==>
              |Verdicts(search, ps).value| == |ps|
              && forall k :: 0 <= k < |ps| ==> PairVerdict(search, ps[k]) == Passed(Verdicts(search, ps).value[k])
    decreases |ps|
  {
    if ps != [] {
      var n := |ps| - 1;
      VerdictsMeaning(search, ps[..n]);
      assert forall k :: 0 <= k < n ==> ps[..n][k] == ps[k];
    }
  }

  /** `results.filter((r) => r.ok).length`. */
  function Successes(vs: seq<Verdict>): (n: nat)
    ensures n <= |vs|
    decreases |vs|
  {
    if vs == [] then 0
    else Successes(vs[..|vs| - 1]) + (if vs[|vs| - 1].ok then 1 else 0)
  }

  lemma {:induction false} SuccessesCount(vs: seq<Verdict>)
    ensures (Successes(vs) == |vs|) <==> forall k :: 0 <= k < |vs| ==> vs[k].ok
    ensures (Successes(vs) == 0) <==> forall k :: 0 <= k < |vs| ==> !vs[k].ok
    decreases |vs|
  {
    if vs != [] {
      var n := |vs| - 1;
      SuccessesCount(vs[..n]);
      assert forall k :: 0 <= k < n ==> vs[..n][k] == vs[k];
    }
  }

  const Threshold: real := 0.85

  /** `successes / total >= 0.85`, with a positive total. */
  predicate MeetsThreshold(successes: nat, total: nat) {
    total > 0 && (successes as real) / (total as real) >= Threshold
  }

  /** The threshold in whole numbers: at least 17 successes per 20 queries. */
  lemma ThresholdInIntegers(successes: nat, total: nat)
    requires total > 0
    ensures MeetsThreshold(successes, total) <==> 20 * successes >= 17 * total
  {
    var s, t := successes as real, total as real;
    assert s / t >= 0.85 <==> s >= 0.85 * t;
  }

  /** The whole test: it passes exactly when the sample is non-empty, no
      worker fails an `expect`, and at least 85% of the queries find their
      food in the top 50. When no worker fails, `verdicts` are the workers'
      verdicts in sample order. */
  method RunAccuracyTest(events: seq<Event>, search: MrrTest.SearchService) returns (passed: bool, verdicts: seq<Verdict>)
    ensures var vs := Verdicts(search, Sample(events));
            passed <==> |Sample(events)| > 0 && vs.Some? && MeetsThreshold(Successes(vs.value), |Sample(events)|)
    ensures Verdicts(search, Sample(events)).Some? ==> verdicts == Verdicts(search, Sample(events)).value
  {
    var pairs := BuildSample(events);
    verdicts := [];
    if |pairs| == 0 {
      return false, verdicts;
    }
    var i := 0;
    while i < |pairs|
      invariant 0 <= i <= |pairs| && |verdicts| == i
      invariant Verdicts(search, pairs[..i]) == Some(verdicts)
    {
      var r := Worker(search(pairs[i].searchTerm), pairs[i].expected);
      assert pairs[..i + 1][..i] == pairs[..i];
      if r.ExpectFailed? {
        VerdictsMeaning(search, pairs);
        return false, verdicts;
      }
      verdicts := verdicts + [r.value];
      i := i + 1;
    }
    assert pairs[..i] == pairs;
    var successes := 0;
    for j := 0 to |verdicts|
      invariant successes == Successes(verdicts[..j])
    {
      assert verdicts[..j + 1][..j] == verdicts[..j];
      if verdicts[j].ok {
        successes := successes + 1;
      }
    }
    assert verdicts[..|verdicts|] == verdicts;
    var total := |verdicts|;
    var successRate := (successes as real) / (total as real);
    passed := successRate >= Threshold;
  }
}
