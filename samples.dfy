/** The query sample both search-quality tests draw from the recorded search
    events: each event with a search term and an expected food name of at
    least three characters after trimming contributes one pair, the first
    time its lower-cased term is seen, and collection stops once 5000 pairs
    are gathered. */
module Samples {
  import opened Common

  /** One recorded event; a field that is missing or not a string is `None`. */
  datatype Event = Event(searchTerm: Option<string>, food: Option<string>)

  datatype Pair = Pair(searchTerm: string, expected: string)

  const SampleCap: nat := 5000

  /** `typeof x === 'string' ? x.trim() : ''`. */
  function TrimmedField(field: Option<string>): string {
    match field
    case Some(s) => Trim(s)
    case None => ""
  }

  predicate Eligible(e: Event) {
    |TrimmedField(e.searchTerm)| >= 3 && |TrimmedField(e.food)| >= 3
  }

  function PairOf(e: Event): Pair {
    Pair(TrimmedField(e.searchTerm), TrimmedField(e.food))
  }

  /** The key the `seen` set holds. */
  function KeyOf(p: Pair): string {
    ToLower(p.searchTerm)
  }

  function KeySet(ps: seq<Pair>): set<string>
    decreases |ps|
  {
    if ps == [] then {} else KeySet(ps[..|ps| - 1]) + {KeyOf(ps[|ps| - 1])}
  }

  lemma {:induction false} KeySetMembers(ps: seq<Pair>, key: string)
    ensures key in KeySet(ps) <==> exists k :: 0 <= k < |ps| && KeyOf(ps[k]) == key
    decreases |ps|
  {
    if ps != [] {
      var n := |ps| - 1;
      KeySetMembers(ps[..n], key);
      if exists k :: 0 <= k < n && KeyOf(ps[..n][k]) == key {
        var k :| 0 <= k < n && KeyOf(ps[..n][k]) == key;
        assert ps[k] == ps[..n][k];
      }
      if exists k :: 0 <= k < |ps| && KeyOf(ps[k]) == key {
        var k :| 0 <= k < |ps| && KeyOf(ps[k]) == key;
        if k < n {
          assert ps[..n][k] == ps[k];
        }
      }
    }
  }

  /** The pairs of all events, without the cap, in event order. */
  function Collect(events: seq<Event>): seq<Pair>
    decreases |events|
  {
    if events == [] then []
    else
      var prev := Collect(events[..|events| - 1]);
      var e := events[|events| - 1];
      if Eligible(e) && KeyOf(PairOf(e)) !in KeySet(prev) then prev + [PairOf(e)] else prev
  }

  function Take(ps: seq<Pair>, n: nat): (r: seq<Pair>)
    ensures |r| == Min(n, |ps|) && r == ps[..|r|]
  {
    ps[..Min(n, |ps|)]
  }

  /** The sample the tests use. */
  function Sample(events: seq<Event>): seq<Pair> {
    Take(Collect(events), SampleCap)
  }

  /** Later events only ever append pairs. */
  lemma {:induction false} CollectPrefix(events: seq<Event>, j: nat)
    requires j <= |events|
    ensures |Collect(events[..j])| <= |Collect(events)|
    ensures Collect(events[..j]) == Collect(events)[..|Collect(events[..j])|]
    decreases |events|
  {
    if j < |events| {
      var n := |events| - 1;
      assert events[..n][..j] == events[..j];
      CollectPrefix(events[..n], j);
      assert events[..n] == events[..|events| - 1];
    } else {
      assert events[..j] == events;
    }
  }

  lemma CollectStep(events: seq<Event>, i: nat)
    requires i < |events|
    ensures Collect(events[..i + 1])
            == if Eligible(events[i]) && KeyOf(PairOf(events[i])) !in KeySet(Collect(events[..i]))
               then Collect(events[..i]) + [PairOf(events[i])]
               else Collect(events[..i])
  {
    assert events[..i + 1][..i] == events[..i];
  }

  lemma KeySetSnoc(ps: seq<Pair>, p: Pair)
    ensures KeySet(ps + [p]) == KeySet(ps) + {KeyOf(p)}
  {
    assert (ps + [p])[..|ps|] == ps;
  }

  /** The loop over the events, with the `seen` set and the early stop. */
  method BuildSample(events: seq<Event>) returns (pairs: seq<Pair>)
    ensures pairs == Sample(events)
  {
    pairs := [];
    var seen: set<string> := {};
    var i := 0;
    while i < |events|
      invariant 0 <= i <= |events|
      invariant pairs == Collect(events[..i])
      invariant seen == KeySet(pairs)
      invariant |pairs| < SampleCap
    {
      ghost var before := pairs;
      var e := events[i];
      var term := TrimmedField(e.searchTerm);
      var expected := TrimmedField(e.food);
      if |term| >= 3 && |expected| >= 3 {
        var key := ToLower(term);
        if key !in seen {
          KeySetSnoc(pairs, Pair(term, expected));
          seen := seen + {key};
          pairs := pairs + [Pair(term, expected)];
        }
      }
      assert pairs == Collect(events[..i + 1]) by {
        CollectStep(events, i);
        assert before == Collect(events[..i]);
      }
      if |pairs| >= SampleCap {
        SampleAtCap(events, i + 1);
        return;
      }
      i := i + 1;
    }
    assert events[..i] == events;
  }

  /** Once a prefix of the events has collected the cap, the sample is that
      prefix's pairs. */
  lemma SampleAtCap(events: seq<Event>, j: nat)
    requires j <= |events| && |Collect(events[..j])| >= SampleCap
    requires |Collect(events[..j])| <= SampleCap
    ensures Sample(events) == Collect(events[..j])
  {
    CollectPrefix(events, j);
  }

  /** The sample never exceeds the cap. */
  lemma SampleBounded(events: seq<Event>)
    ensures |Sample(events)| <= SampleCap
  {
  }

  /** Pairs of shorter event lists are pairs of the longer one. */
  lemma {:induction false} CollectTake(events: seq<Event>, j: nat)
    requires j <= |events|
    ensures forall p :: p in Collect(events[..j]) ==> p in Collect(events)
  {
    CollectPrefix(events, j);
  }

  predicate WellFormedPair(p: Pair) {
    |p.searchTerm| >= 3 && |p.expected| >= 3
    && Trim(p.searchTerm) == p.searchTerm && Trim(p.expected) == p.expected
  }

  /** Every pair holds a trimmed term and a trimmed food name, each of at
      least three characters. */
  lemma {:induction false} CollectWellFormed(events: seq<Event>)
    ensures forall k :: 0 <= k < |Collect(events)| ==> WellFormedPair(Collect(events)[k])
    decreases |events|
  {
    if events != [] {
      var n := |events| - 1;
      CollectWellFormed(events[..n]);
      var e := events[n];
      if Eligible(e) {
        match e.searchTerm {
          case Some(s) => TrimIdempotent(s);
          case None =>
        }
        match e.food {
          case Some(s) => TrimIdempotent(s);
          case None =>
        }
      }
    }
  }

  predicate DistinctKeys(ps: seq<Pair>) {
    forall a, b :: 0 <= a < b < |ps| ==> KeyOf(ps[a]) != KeyOf(ps[b])
  }

  /** No two pairs share a term up to ASCII case. */
  lemma {:induction false} CollectDistinct(events: seq<Event>)
    ensures DistinctKeys(Collect(events))
    decreases |events|
  {
    if events != [] {
      var n := |events| - 1;
      var prev := Collect(events[..n]);
      CollectDistinct(events[..n]);
      var e := events[n];
      if Eligible(e) && KeyOf(PairOf(e)) !in KeySet(prev) {
        KeySetMembers(prev, KeyOf(PairOf(e)));
        var ps := prev + [PairOf(e)];
        forall a, b | 0 <= a < b < |ps| ensures KeyOf(ps[a]) != KeyOf(ps[b]) {
          if b == |prev| {
            assert ps[a] == prev[a];
          } else {
            assert ps[a] == prev[a] && ps[b] == prev[b];
          }
        }
      }
    }
  }

  /** An eligible event's term is represented: some pair has its key. */
  lemma CollectCovers(events: seq<Event>, j: nat)
    requires j < |events| && Eligible(events[j])
    ensures KeyOf(PairOf(events[j])) in KeySet(Collect(events))
  {
    var upTo := events[..j + 1];
    assert KeyOf(PairOf(events[j])) in KeySet(Collect(upTo)) by {
      assert upTo[|upTo| - 1] == events[j];
      CollectKeysGrow(upTo);
    }
    CollectKeysMono(events, j + 1);
  }

  /** The keys collected from a prefix of the events are all collected. */
  lemma CollectKeysMono(events: seq<Event>, m: nat)
    requires m <= |events|
    ensures KeySet(Collect(events[..m])) <= KeySet(Collect(events))
  {
    CollectPrefix(events, m);
    KeySetPrefix(Collect(events), |Collect(events[..m])|);
  }

  /** The keys of a prefix are keys of the whole list. */
  lemma {:induction false} KeySetPrefix(ps: seq<Pair>, l: nat)
    requires l <= |ps|
    ensures KeySet(ps[..l]) <= KeySet(ps)
    decreases |ps|
  {
    if l < |ps| {
      var n := |ps| - 1;
      assert ps[..n][..l] == ps[..l];
      KeySetPrefix(ps[..n], l);
    } else {
      assert ps[..l] == ps;
    }
  }

  /** The last event keeps every earlier key and adds its own when eligible. */
  lemma CollectKeysGrow(events: seq<Event>)
    requires events != []
    ensures KeySet(Collect(events[..|events| - 1])) <= KeySet(Collect(events))
    ensures Eligible(events[|events| - 1]) ==> KeyOf(PairOf(events[|events| - 1])) in KeySet(Collect(events))
  {
    var prev := Collect(events[..|events| - 1]);
    var e := events[|events| - 1];
    if Eligible(e) && KeyOf(PairOf(e)) !in KeySet(prev) {
      KeySetSnoc(prev, PairOf(e));
    }
  }

  /** Event `j` is eligible and no earlier eligible event has its key. */
  predicate FirstWithKey(events: seq<Event>, j: nat)
    requires j < |events|
  {
    Eligible(events[j])
    && forall i :: 0 <= i < j && Eligible(events[i]) ==> KeyOf(PairOf(events[i])) != KeyOf(PairOf(events[j]))
  }

  lemma FirstWithKeyPrefix(events: seq<Event>, n: nat, j: nat)
    requires j < n <= |events|
    ensures FirstWithKey(events[..n], j) == FirstWithKey(events, j)
  {
    assert forall i :: 0 <= i < n ==> events[..n][i] == events[i];
  }

  /** Each pair comes from the first eligible event with its term (up to
      ASCII case). */
  lemma {:induction false} CollectFirstOccurrence(events: seq<Event>, k: nat)
    requires k < |Collect(events)|
    ensures exists j :: 0 <= j < |events| && FirstWithKey(events, j) && PairOf(events[j]) == Collect(events)[k]
    decreases |events|
  {
    var n := |events| - 1;
    var prev := Collect(events[..n]);
    var e := events[n];
    if k < |prev| {
      CollectFirstOccurrence(events[..n], k);
      CollectPrefix(events, n);
      var j :| 0 <= j < n && FirstWithKey(events[..n], j) && PairOf(events[..n][j]) == prev[k];
      FirstWithKeyPrefix(events, n, j);
      assert events[j] == events[..n][j];
    } else {
      assert Collect(events)[k] == PairOf(e);
      forall i | 0 <= i < n && Eligible(events[i]) ensures KeyOf(PairOf(events[i])) != KeyOf(PairOf(e)) {
        assert events[i] == events[..n][i];
        CollectCovers(events[..n], i);
      }
      assert FirstWithKey(events, n);
    }
  }
}
