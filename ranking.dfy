/** Reciprocal rank: the first of the top `k` results whose name matches the
    expected food decides the score `1 / rank` (ranks from 1), and a list
    without such a result scores 0. */
module Ranking {
  import opened Common
  import opened TextMatch
  import opened Requests

  /** `it && typeof it.name === 'string' && nameMatches(it.name, expected)`. */
  predicate Hit(item: Item, expected: string) {
    item.Some? && NameMatches(item.value, expected)
  }

  /** `Math.min(k, results.length)`, as the number of loop iterations: a
      negative bound runs none. */
  function Limit(k: int, n: nat): (l: nat)
    ensures l <= n && (k >= 0 ==> l == Min(k, n)) && (k < 0 ==> l == 0)
  {
    if k <= 0 then 0 else Min(k, n)
  }

  /** The first index in `from..limit` holding a hit. */
  function FirstHit(results: seq<Item>, expected: string, from: nat, limit: nat): Option<nat>
    requires limit <= |results|
    decreases limit - from
  {
    if from >= limit then None
    else if Hit(results[from], expected) then Some(from)
    else FirstHit(results, expected, from + 1, limit)
  }

  function RR(results: seq<Item>, expected: string, k: int): real {
    match FirstHit(results, expected, 0, Limit(k, |results|))
    case Some(i) => 1.0 / ((i + 1) as real)
    case None => 0.0
  }

  /** `reciprocalRankAtK`. */
  method ReciprocalRankAtK(results: seq<Item>, expected: string, k: int) returns (rr: real)
    ensures rr == RR(results, expected, k)
  {
    var limit := Limit(k, |results|);
    var i := 0;
    while i < limit
      invariant 0 <= i <= limit
      invariant FirstHit(results, expected, i, limit) == FirstHit(results, expected, 0, limit)
    {
      var it := results[i];
      if it.Some? && NameMatches(it.value, expected) {
        return 1.0 / ((i + 1) as real);
      }
      i := i + 1;
    }
    return 0.0;
  }

  /** `FirstHit` finds the least hit in range, and finds none exactly when
      the range has none. */
  lemma {:induction false} FirstHitSpec(results: seq<Item>, expected: string, from: nat, limit: nat)
    requires limit <= |results|
    ensures match FirstHit(results, expected, from, limit)
            case Some(i) =>
              from <= i < limit && Hit(results[i], expected)
              && forall j :: from <= j < i ==> !Hit(results[j], expected)
            case None => forall j :: from <= j < limit ==> !Hit(results[j], expected)
    decreases limit - from
  {
    if from < limit && !Hit(results[from], expected) {
      FirstHitSpec(results, expected, from + 1, limit);
    }
  }

  /** The reciprocal rank is positive exactly when a hit lies in the top
      `k`, and is then one over the one-based position of the first hit. */
  lemma RRMeaning(results: seq<Item>, expected: string, k: int)
    ensures RR(results, expected, k) > 0.0 <==>
              exists i :: 0 <= i < Limit(k, |results|) && Hit(results[i], expected)
    ensures forall i :: 0 <= i < Limit(k, |results|) && Hit(results[i], expected)
              && (forall j :: 0 <= j < i ==> !Hit(results[j], expected))
              ==> RR(results, expected, k) == 1.0 / ((i + 1) as real)
  {
    var limit := Limit(k, |results|);
    FirstHitSpec(results, expected, 0, limit);
    match FirstHit(results, expected, 0, limit)
    case Some(i) =>
      RRAt(results, expected, k, i);
      forall i' | 0 <= i' < limit && Hit(results[i'], expected) && (forall j :: 0 <= j < i' ==> !Hit(results[j], expected))
        ensures i' == i
      {
      }
    case None =>
  }

  /** The score of a first hit at `i`. */
  lemma RRAt(results: seq<Item>, expected: string, k: int, i: nat)
    requires FirstHit(results, expected, 0, Limit(k, |results|)) == Some(i)
    ensures RR(results, expected, k) == 1.0 / ((i + 1) as real) > 0.0
  {
  }

  /** Scores lie between 0 and 1. */
  lemma RRRange(results: seq<Item>, expected: string, k: int)
    ensures 0.0 <= RR(results, expected, k) <= 1.0
  {
  }

  /** A non-positive `k` or an empty list scores 0. */
  lemma RRNothingToRank(results: seq<Item>, expected: string, k: int)
    requires k <= 0 || results == []
    ensures RR(results, expected, k) == 0.0
  {
  }

  /** Looking further down the list never lowers the score. */
  lemma RRMonotone(results: seq<Item>, expected: string, k1: int, k2: int)
    requires k1 <= k2
    ensures RR(results, expected, k1) <= RR(results, expected, k2)
  {
    var l1, l2 := Limit(k1, |results|), Limit(k2, |results|);
    FirstHitSpec(results, expected, 0, l1);
    FirstHitSpec(results, expected, 0, l2);
    match FirstHit(results, expected, 0, l1)
    case None =>
    case Some(i) =>
      var j := FirstHit(results, expected, 0, l2).value;
      assert j <= i;
      assert ((j + 1) as real) <= ((i + 1) as real);
  }

  /** Only the first `m` results matter for any `k <= m`: scoring the list
      cut to `m` entries gives the same. */
  lemma RRTop(results: seq<Item>, expected: string, k: int, m: nat)
    requires k <= m
    ensures RR(results[..Min(m, |results|)], expected, k) == RR(results, expected, k)
  {
    var top := results[..Min(m, |results|)];
    var l := Limit(k, |results|);
    assert Limit(k, |top|) == l;
    FirstHitSpec(top, expected, 0, l);
    FirstHitSpec(results, expected, 0, l);
    assert forall j :: 0 <= j < l ==> top[j] == results[j];
    match FirstHit(results, expected, 0, l)
    case None =>
    case Some(i) =>
      var i' := FirstHit(top, expected, 0, l).value;
      assert !(i' < i) && !(i < i');
  }
}
