/**
 * `fetchWithRateLimitHandling`: at most five tries; a temporary network error
 * or a 403 answer consumes a try and retries, a 200 answer succeeds, anything
 * else fails at once. The network is an oracle: `respond(n)` is what try
 * number `n` (from 0) runs into.
 */
module Fetch {

  const MaxRetries: nat := 5
  const StatusOK: int := 200
  const StatusForbidden: int := 403

  /** What one try runs into. */
  datatype Attempt =
    | ReqBuildErr      // http.NewRequest failed; nothing was sent
    | TempNetErr       // client.Do failed with a net.Error whose Temporary() is true
    | PermNetErr       // client.Do failed with any other error
    | Status(code: int) // a response arrived with this status code

  datatype Failure =
    | RequestError
    | NetworkError
    | UnexpectedStatus(code: int)
    | MaxRetriesExceeded

  datatype FetchResult = Ok | Fail(failure: Failure)

  /** The result together with the number of tries made. */
  datatype Outcome = Outcome(result: FetchResult, attempts: nat)

  /** The tries after which the loop sleeps and tries again. */
  predicate Retryable(a: Attempt)
  {
    a == TempNetErr || a == Status(StatusForbidden)
  }

  /** What a try that is not retried returns. */
  function Verdict(a: Attempt): (r: FetchResult)
    requires !Retryable(a)
    ensures r == Ok <==> a == Status(StatusOK)
  {
    match a
    case ReqBuildErr => Fail(RequestError)
    case PermNetErr => Fail(NetworkError)
    case Status(code) => if code == StatusOK then Ok else Fail(UnexpectedStatus(code))
  }

  /** The retry loop as a state machine, from try number `retries` on. */
  function Retry(respond: nat -> Attempt, retries: nat): Outcome
    requires retries <= MaxRetries
    decreases MaxRetries - retries
  {
    if retries == MaxRetries then Outcome(Fail(MaxRetriesExceeded), MaxRetries)
    else if Retryable(respond(retries)) then Retry(respond, retries + 1)
    else Outcome(Verdict(respond(retries)), retries + 1)
  }

  /**
   * The first try at or after `from` that is not retried, or `MaxRetries`
   * when every remaining try is retryable.
   */
  function FirstDecisive(respond: nat -> Attempt, from: nat): (j: nat)
    requires from <= MaxRetries
    ensures from <= j <= MaxRetries
    ensures forall i :: from <= i < j ==> Retryable(respond(i))
    ensures j < MaxRetries ==> !Retryable(respond(j))
    decreases MaxRetries - from
  {
    if from == MaxRetries || !Retryable(respond(from)) then from
    else FirstDecisive(respond, from + 1)
  }

  /**
   * The decision table, for every oracle: the first try that is not retried
   * decides the result, and the number of tries is its position plus one; if
   * every try up to the ceiling is retried, the retries are exhausted after
   * exactly five tries.
   */
  lemma {:induction false} RetryDecided(respond: nat -> Attempt, from: nat)
    requires from <= MaxRetries
    ensures var j := FirstDecisive(respond, from);
      Retry(respond, from) ==
        if j == MaxRetries then Outcome(Fail(MaxRetriesExceeded), MaxRetries)
        else Outcome(Verdict(respond(j)), j + 1)
    decreases MaxRetries - from
  {
    if from < MaxRetries && Retryable(respond(from)) {
      RetryDecided(respond, from + 1);
    }
  }

  /** Every run makes between one and five tries; the retries are exhausted only after five. */
  lemma RetryBounds(respond: nat -> Attempt)
    ensures 1 <= Retry(respond, 0).attempts <= MaxRetries
    ensures Retry(respond, 0).result == Fail(MaxRetriesExceeded) <==>
              forall i :: 0 <= i < MaxRetries ==> Retryable(respond(i))
    ensures Retry(respond, 0).result == Fail(MaxRetriesExceeded) ==> Retry(respond, 0).attempts == MaxRetries
  {
    RetryDecided(respond, 0);
    var j := FirstDecisive(respond, 0);
    if j < MaxRetries {
      assert Verdict(respond(j)) != Fail(MaxRetriesExceeded);
    }
  }

  /** Success means a 200 answer, after nothing but retryable ones, and it is the last try made. */
  lemma RetrySucceeds(respond: nat -> Attempt)
    ensures Retry(respond, 0).result == Ok <==>
              exists j :: 0 <= j < MaxRetries && respond(j) == Status(StatusOK) &&
                forall i :: 0 <= i < j ==> Retryable(respond(i))
    ensures Retry(respond, 0).result == Ok ==> respond(Retry(respond, 0).attempts - 1) == Status(StatusOK)
  {
    RetryDecided(respond, 0);
    var d := FirstDecisive(respond, 0);
    forall j | 0 <= j < MaxRetries && respond(j) == Status(StatusOK) && forall i :: 0 <= i < j ==> Retryable(respond(i))
      ensures d == j
    {
      assert !Retryable(respond(j));
    }
  }

  /** A server that answers 403 to each of the first five tries costs exactly five tries and never succeeds. */
  lemma AlwaysForbidden(respond: nat -> Attempt)
    requires forall i :: 0 <= i < MaxRetries ==> respond(i) == Status(StatusForbidden)
    ensures Retry(respond, 0) == Outcome(Fail(MaxRetriesExceeded), MaxRetries)
  {
    RetryDecided(respond, 0);
  }

  /** A non-retryable first answer, such as a 404, is the only try made. */
  lemma FirstTryDecisive(respond: nat -> Attempt)
    requires !Retryable(respond(0))
    ensures Retry(respond, 0).attempts == 1
    ensures respond(0) == Status(404) ==> Retry(respond, 0).result == Fail(UnexpectedStatus(404))
  {
    RetryDecided(respond, 0);
  }

  /**
   * The loop of `fetchWithRateLimitHandling`. `slept` counts the fixed-length
   * sleeps: one per retried try, so none when the first try decides.
   */
  method FetchWithRateLimitHandling(respond: nat -> Attempt) returns (result: FetchResult, attempts: nat, ghost slept: nat)
    ensures Outcome(result, attempts) == Retry(respond, 0)
    ensures slept == if result == Fail(MaxRetriesExceeded) then attempts else attempts - 1
  {
    var retries := 0;
    slept := 0;
    while retries < MaxRetries
      invariant 0 <= retries <= MaxRetries
      invariant Retry(respond, retries) == Retry(respond, 0)
      invariant slept == retries
    {
      var attempt := respond(retries);
      if attempt == ReqBuildErr {
        return Fail(RequestError), retries + 1, slept;
      }
      if attempt == TempNetErr {
        slept := slept + 1;
        retries := retries + 1;
        continue;
      }
      if attempt == PermNetErr {
        return Fail(NetworkError), retries + 1, slept;
      }
      if attempt.code == StatusOK {
        return Ok, retries + 1, slept;
      }
      if attempt.code == StatusForbidden {
        slept := slept + 1;
        retries := retries + 1;
        continue;
      }
      return Fail(UnexpectedStatus(attempt.code)), retries + 1, slept;
    }
    return Fail(MaxRetriesExceeded), MaxRetries, slept;
  }
}
