/** The mean-reciprocal-rank evaluation: every sampled query is sent to the
    search service, the top 50 results are scored at 1, 10 and 50, and the
    three means over all queries must lie between 0 and 1. */
module MrrTest {
  import opened Common
  import opened Requests
  import opened Ranking
  import opened Samples

  const TopN: nat := 50

  /** A query's reciprocal ranks at K = 1, 10 and 50. */
  datatype Ranks = Ranks(at1: real, at10: real, at50: real)

  /** `r.ranks[k]` for the three values of K; any other K reads the last. */
  function Score(r: Ranks, k: nat): real {
    if k == 1 then r.at1 else if k == 10 then r.at10 else r.at50
  }

  function Top(body: seq<Item>): seq<Item> {
    body[..Min(TopN, |body|)]
  }

  function RanksOf(body: seq<Item>, expected: string): Ranks {
    var top := Top(body);
    Ranks(RR(top, expected, 1), RR(top, expected, 10), RR(top, expected, 50))
  }

  /** What the worker returns for one query, given the service's replies. */
  function WorkerResult(service: Service, expected: string): Checked<Ranks> {
    match Fetch(service)
    case GaveUp => Passed(Ranks(0.0, 0.0, 0.0))
    case Answered(_, res) =>
      if res.status != Ok || res.body.None? then ExpectFailed
      else Passed(RanksOf(res.body.value, expected))
  }

  method Worker(service: Service, expected: string) returns (r: Checked<Ranks>)
    ensures r == WorkerResult(service, expected)
  {
    var attempt := FetchWithRetries(service);
    if attempt.GaveUp? {
      return Passed(Ranks(0.0, 0.0, 0.0));
    }
    var res := attempt.response;
    if res.status != Ok || res.body.None? {
      return ExpectFailed;
    }
    var top := res.body.value[..Min(TopN, |res.body.value|)];
    var r1 := ReciprocalRankAtK(top, expected, 1);
    var r10 := ReciprocalRankAtK(top, expected, 10);
    var r50 := ReciprocalRankAtK(top, expected, 50);
    return Passed(Ranks(r1, r10, r50));
  }

  predicate ValidRanks(r: Ranks) {
    0.0 <= r.at1 <= r.at10 <= r.at50 <= 1.0
  }

  /** Every rank a worker reports lies in [0, 1], and the ranks never
      decrease from K = 1 to K = 10 to K = 50. */
  lemma WorkerRanksValid(service: Service, expected: string)
    requires WorkerResult(service, expected).Passed?
    ensures ValidRanks(WorkerResult(service, expected).value)
  {
    match Fetch(service)
    case GaveUp =>
    case Answered(_, res) =>
      var top := Top(res.body.value);
      RRRange(top, expected, 1);
      RRRange(top, expected, 50);
      RRMonotone(top, expected, 1, 10);
      RRMonotone(top, expected, 10, 50);
  }

  /** Cutting the reply to its top 50 changes no rank: each is the
      reciprocal rank over the whole reply. */
  lemma WorkerRanksWholeReply(service: Service, expected: string)
    requires Fetch(service).Answered? && WorkerResult(service, expected).Passed?
    ensures var body := Fetch(service).response.body.value;
            var r := WorkerResult(service, expected).value;
            r.at1 == RR(body, expected, 1) && r.at10 == RR(body, expected, 10) && r.at50 == RR(body, expected, 50)
  {
    var body := Fetch(service).response.body.value;
    RRTop(body, expected, 1, TopN);
    RRTop(body, expected, 10, TopN);
    RRTop(body, expected, 50, TopN);
  }

  /** A query the service never stops answering 503 scores 0 at every K;
      a reply that is not a 200 carrying an array fails the test. */
  lemma WorkerEdgeCases(service: Service, expected: string)
    ensures (forall b :: 1 <= b <= MaxRetries ==> service(b).status == Unavailable)
              ==> WorkerResult(service, expected) == Passed(Ranks(0.0, 0.0, 0.0))
    ensures (exists a :: 1 <= a <= MaxRetries && (service(a).status != Ok || service(a).body.None?)
                         && service(a).status != Unavailable
                         && forall b :: 1 <= b < a ==> service(b).status == Unavailable)
              ==> WorkerResult(service, expected) == ExpectFailed
  {
    FetchOutcome(service);
    if exists a :: 1 <= a <= MaxRetries && (service(a).status != Ok || service(a).body.None?)
                   && service(a).status != Unavailable
                   && forall b :: 1 <= b < a ==> service(b).status == Unavailable {
      var a :| 1 <= a <= MaxRetries && (service(a).status != Ok || service(a).body.None?)
               && service(a).status != Unavailable
               && forall b :: 1 <= b < a ==> service(b).status == Unavailable;
      var f := Fetch(service);
      assert f.Answered? by {
        assert service(a).status != Unavailable;
      }
      assert !(f.attempt < a) && !(a < f.attempt);
    }
  }

  /** `totals[k]` after the loop over the results. */
  function Total(rs: seq<Ranks>, k: nat): real
    decreases |rs|
  {
    if rs == [] then 0.0 else Total(rs[..|rs| - 1], k) + Score(rs[|rs| - 1], k)
  }

  /** `results.length || 1`. */
  function Denominator(n: nat): (d: nat)
    ensures d >= 1 && (n > 0 ==> d == n)
  {
    if n == 0 then 1 else n
  }

  function Mean(rs: seq<Ranks>, k: nat): real {
    Total(rs, k) / (Denominator(|rs|) as real)
  }

  /** The aggregation loop and the three divisions. */
  method Aggregate(rs: seq<Ranks>) returns (mrr1: real, mrr10: real, mrr50: real)
    ensures mrr1 == Mean(rs, 1) && mrr10 == Mean(rs, 10) && mrr50 == Mean(rs, 50)
  {
    var t1, t10, t50 := 0.0, 0.0, 0.0;
    for i := 0 to |rs|
      invariant t1 == Total(rs[..i], 1) && t10 == Total(rs[..i], 10) && t50 == Total(rs[..i], 50)
    {
      assert rs[..i + 1][..i] == rs[..i];
      t1 := t1 + rs[i].at1;
      t10 := t10 + rs[i].at10;
      t50 := t50 + rs[i].at50;
    }
    assert rs[..|rs|] == rs;
    var n := if |rs| == 0 then 1 else |rs|;
    mrr1 := t1 / (n as real);
    mrr10 := t10 / (n as real);
    mrr50 := t50 / (n as real);
  }

  lemma {:induction false} TotalBounds(rs: seq<Ranks>, k: nat)
    requires forall j :: 0 <= j < |rs| ==> ValidRanks(rs[j])
    ensures 0.0 <= Total(rs, k) <= |rs| as real
    decreases |rs|
  {
    if rs != [] {
      TotalBounds(rs[..|rs| - 1], k);
    }
  }

  lemma {:induction false} TotalOrdered(rs: seq<Ranks>)
    requires forall j :: 0 <= j < |rs| ==> ValidRanks(rs[j])
    ensures Total(rs, 1) <= Total(rs, 10) <= Total(rs, 50)
    decreases |rs|
  {
    if rs != [] {
      TotalOrdered(rs[..|rs| - 1]);
    }
  }

  /** Each mean of valid ranks lies in [0, 1]. */
  lemma MeanInRange(rs: seq<Ranks>, k: nat)
    requires forall j :: 0 <= j < |rs| ==> ValidRanks(rs[j])
    ensures 0.0 <= Mean(rs, k) <= 1.0
  {
    TotalBounds(rs, k);
    var d := Denominator(|rs|) as real;
    assert Total(rs, k) <= d;
  }

  /** MRR@1 <= MRR@10 <= MRR@50. */
  lemma MeansOrdered(rs: seq<Ranks>)
    requires forall j :: 0 <= j < |rs| ==> ValidRanks(rs[j])
    ensures Mean(rs, 1) <= Mean(rs, 10) <= Mean(rs, 50)
  {
    TotalOrdered(rs);
    var d := Denominator(|rs|) as real;
    assert Total(rs, 1) / d <= Total(rs, 10) / d;
    assert Total(rs, 10) / d <= Total(rs, 50) / d;
  }

  /** The replies of the service to each query, by attempt. */
  type SearchService = string -> Service

  function PairResult(search: SearchService, p: Pair): Checked<Ranks> {
    WorkerResult(search(p.searchTerm), p.expected)
  }

  /** The whole test: it passes exactly when the sample is non-empty and no
      worker fails an `expect`; the final range checks never fail. */
  method RunMrrTest(events: seq<Event>, search: SearchService) returns (passed: bool)
    ensures passed <==> |Sample(events)| > 0
                        && forall k :: 0 <= k < |Sample(events)| ==> PairResult(search, Sample(events)[k]).Passed?
  {
    var pairs := BuildSample(events);
    if |pairs| == 0 {
      return false;
    }
    var rs: seq<Ranks> := [];
    var i := 0;
    while i < |pairs|
      invariant 0 <= i <= |pairs| && |rs| == i
      invariant forall k :: 0 <= k < i ==> PairResult(search, pairs[k]) == Passed(rs[k])
      invariant forall k :: 0 <= k < i ==> ValidRanks(rs[k])
    {
      var r := Worker(search(pairs[i].searchTerm), pairs[i].expected);
      if r.ExpectFailed? {
        return false;
      }
      WorkerRanksValid(search(pairs[i].searchTerm), pairs[i].expected);
      rs := rs + [r.value];
      i := i + 1;
    }
    var mrr1, mrr10, mrr50 := Aggregate(rs);
    MeanInRange(rs, 1);
    MeanInRange(rs, 10);
    MeanInRange(rs, 50);
    passed := 0.0 <= mrr1 <= 1.0 && 0.0 <= mrr10 <= 1.0 && 0.0 <= mrr50 <= 1.0;
  }
}
