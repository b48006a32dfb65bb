/** The request loop both search-quality tests run per query: up to five
    attempts, each answered by the search service; a 503 (the model is still
    loading) is retried, any other reply ends the loop, and a 503 on the
    fifth attempt gives up. */
module Requests {
  import opened Common

  /** One entry of the reply's array: its `name` when that is a string,
      `None` for an entry that is not an object with a string name. */
  type Item = Option<string>

  /** `body` is `None` when the reply is not a JSON array (including a body
      that does not parse, which `json()` turns into `null`). */
  datatype Response = Response(status: int, body: Option<seq<Item>>)

  /** The reply the service gives to the `attempt`-th request (from 1). */
  type Service = nat -> Response

  const MaxRetries: nat := 5

  const Unavailable: int := 503

  /** A worker's result, or the failed `expect` that fails the test. */
  datatype Checked<+T> = Passed(value: T) | ExpectFailed

  /** The statuses a worker accepts: anything but 200 fails its `expect`. */
  const Ok: int := 200

  datatype Attempt = Answered(attempt: nat, response: Response) | GaveUp

  /** The attempts from `attempt` on. */
  function RetryFrom(service: Service, attempt: nat): (r: Attempt)
    requires 1 <= attempt <= MaxRetries
    ensures r.Answered? ==> attempt <= r.attempt <= MaxRetries && r.response == service(r.attempt)
                            && r.response.status != Unavailable
    decreases MaxRetries - attempt
  {
    var res := service(attempt);
    if res.status == Unavailable then
      if attempt == MaxRetries then GaveUp else RetryFrom(service, attempt + 1)
    else Answered(attempt, res)
  }

  function Fetch(service: Service): Attempt {
    RetryFrom(service, 1)
  }

  /** The `for (let attempt = 1; attempt <= maxRetries; attempt++)` loop.
      The fall-through after it is never reached: the fifth 503 returns. */
  method FetchWithRetries(service: Service) returns (r: Attempt)
    ensures r == Fetch(service)
  {
    var attempt := 1;
    while attempt <= MaxRetries
      invariant 1 <= attempt <= MaxRetries
      invariant RetryFrom(service, attempt) == Fetch(service)
      decreases MaxRetries - attempt
    {
      var res := service(attempt);
      if res.status == Unavailable {
        if attempt == MaxRetries {
          return GaveUp;
        }
        attempt := attempt + 1;
        continue;
      }
      return Answered(attempt, res);
    }
    assert false;
  }

  /** An answer is the first reply that is not a 503, within five
      attempts. */
  lemma {:induction false} RetryAnswered(service: Service, from: nat)
    requires 1 <= from <= MaxRetries
    ensures RetryFrom(service, from).Answered? ==>
              var a := RetryFrom(service, from).attempt;
              from <= a <= MaxRetries && RetryFrom(service, from).response == service(a)
              && service(a).status != Unavailable
              && forall b :: from <= b < a ==> service(b).status == Unavailable
    ensures RetryFrom(service, from).GaveUp? <==> forall b :: from <= b <= MaxRetries ==> service(b).status == Unavailable
    decreases MaxRetries - from
  {
    if from < MaxRetries {
      RetryAnswered(service, from + 1);
    }
  }

  /** The loop's outcome in full: the first non-503 reply among attempts one
      to five, or giving up exactly when all five are 503. */
  lemma FetchOutcome(service: Service)
    ensures Fetch(service).Answered? ==>
              var a := Fetch(service).attempt;
              1 <= a <= MaxRetries && Fetch(service).response == service(a)
              && service(a).status != Unavailable
              && forall b :: 1 <= b < a ==> service(b).status == Unavailable
    ensures Fetch(service).GaveUp? <==> forall b :: 1 <= b <= MaxRetries ==> service(b).status == Unavailable
  {
    RetryAnswered(service, 1);
  }
}
