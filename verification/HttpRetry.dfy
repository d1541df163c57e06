/** `requestRawWithRetry`: a bounded number of attempts with exponential backoff. */
module HttpRetry {
  import opened Common

  /** What one attempt meets: the four steps before and around the request can fail, or a response arrives. */
  datatype Attempt =
    | CannotCreate(cause: string)
    | NoCredentials(cause: string)
    | CannotSign(cause: string)
    | CannotSend(cause: string)
    | CannotRead(cause: string)
    | Response(status: int, body: string)

  datatype Error =
    | Creating(cause: string)
    | Retrieving(cause: string)
    | Signing(cause: string)
    | Sending(cause: string)
    | Reading(cause: string)
    | ServerError(status: int, excerpt: string)
    | ClientError(status: int, excerpt: string)
    | AllFailed(attempts: int, last: Option<Error>)

  datatype Result = Body(body: string) | Failed(error: Error)

  function Truncate(s: string, max: nat): string {
    if |s| <= max then s else s[..max] + "..."
  }

  predicate Retryable(a: Attempt) {
    a.CannotSend? || (a.Response? && a.status >= 500)
  }

  /** The error remembered for a retryable attempt. */
  function LastError(a: Attempt): Error
    requires Retryable(a)
  {
    if a.CannotSend? then Sending(a.cause) else ServerError(a.status, Truncate(a.body, 200))
  }

  /** How a call ends at an attempt that is not retried. */
  function Decision(a: Attempt): Result
    requires !Retryable(a)
  {
    match a
    case CannotCreate(cause) => Failed(Creating(cause))
    case NoCredentials(cause) => Failed(Retrieving(cause))
    case CannotSign(cause) => Failed(Signing(cause))
    case CannotRead(cause) => Failed(Reading(cause))
    case Response(status, body) => if status >= 400 then Failed(ClientError(status, Truncate(body, 200))) else Body(body)
  }

  function Pow2(n: nat): nat {
    if n == 0 then 1 else 2 * Pow2(n - 1)
  }

  /** The contract: the first attempt that is not retryable decides, if it is among the first `maxRetries`. */
  ghost predicate Outcome(attempt: nat -> Attempt, maxRetries: int, result: Result, made: nat, slept: nat) {
    if made > 0 && !Retryable(attempt(made - 1)) then
      && made <= maxRetries
      && (forall i: nat | i < made - 1 :: Retryable(attempt(i)))
      && result == Decision(attempt(made - 1))
      && slept == Pow2(made - 1) - 1
    else
      && made == (if maxRetries > 0 then maxRetries else 0)
      && (forall i: nat | i < made :: Retryable(attempt(i)))
      && result == Failed(AllFailed(maxRetries, if made > 0 then Some(LastError(attempt(made - 1))) else None))
      && slept == if made > 0 then Pow2(made - 1) - 1 else 0
  }

  method RequestRawWithRetry(attempt: nat -> Attempt, maxRetries: int) returns (result: Result, made: nat, slept: nat)
    ensures Outcome(attempt, maxRetries, result, made, slept)
  {
    var lastErr: Option<Error> := None;
    slept := 0;
    var n := 0;
    while n < maxRetries
      invariant 0 <= n && (n > 0 ==> n <= maxRetries)
      invariant forall i: nat | i < n :: Retryable(attempt(i))
      invariant lastErr == if n > 0 then Some(LastError(attempt(n - 1))) else None
      invariant n < maxRetries ==> slept == Pow2(n) - 1
      invariant n > 0 && n == maxRetries ==> slept == Pow2(n - 1) - 1
      invariant n == 0 ==> slept == 0
    {
      var a := attempt(n);
      match a {
        case CannotCreate(cause) => return Failed(Creating(cause)), n + 1, slept;
        case NoCredentials(cause) => return Failed(Retrieving(cause)), n + 1, slept;
        case CannotSign(cause) => return Failed(Signing(cause)), n + 1, slept;
        case CannotSend(cause) =>
          lastErr := Some(Sending(cause));
          if n < maxRetries - 1 {
            slept := slept + Pow2(n);
          }
        case CannotRead(cause) => return Failed(Reading(cause)), n + 1, slept;
        case Response(status, body) =>
          if status >= 500 {
            lastErr := Some(ServerError(status, Truncate(body, 200)));
            if n < maxRetries - 1 {
              slept := slept + Pow2(n);
            }
          } else if status >= 400 {
            return Failed(ClientError(status, Truncate(body, 200))), n + 1, slept;
          } else {
            return Body(body), n + 1, slept;
          }
      }
      n := n + 1;
    }
    return Failed(AllFailed(maxRetries, lastErr)), n, slept;
  }

  // ----- what the contract means -----

  /** The attempts alone decide the result, the number of attempts made and the time slept. */
  lemma OutcomeUnique(attempt: nat -> Attempt, maxRetries: int, r1: Result, m1: nat, s1: nat, r2: Result, m2: nat, s2: nat)
    requires Outcome(attempt, maxRetries, r1, m1, s1) && Outcome(attempt, maxRetries, r2, m2, s2)
    ensures (r1, m1, s1) == (r2, m2, s2)
  {
  }

  /** A call succeeds exactly when some attempt within the limit is answered below 400 and only retryable ones precede it. */
  lemma SucceedsIff(attempt: nat -> Attempt, maxRetries: int, result: Result, made: nat, slept: nat)
    requires Outcome(attempt, maxRetries, result, made, slept)
    ensures result.Body? <==> exists i: nat :: i < maxRetries && Succeeds(attempt(i)) && forall j: nat | j < i :: Retryable(attempt(j))
  {
    if result.Body? {
      assert Succeeds(attempt(made - 1));
    } else if i: nat :| i < maxRetries && Succeeds(attempt(i)) && forall j: nat | j < i :: Retryable(attempt(j)) {
      assert made > i;
    }
  }

  predicate Succeeds(a: Attempt) {
    a.Response? && a.status < 400
  }

  /** A body as it is quoted in an error. */
  function Excerpt(body: string): string {
    if |body| <= 200 then body else body[..200] + "..."
  }

  /**
    How a call goes, by what its attempts meet: after attempts that got no response or a status from
    500, the first that met anything else ends the call with its own result, having slept a second
    before the second attempt and twice as long before each further one.
   */
  lemma EndsAt(attempt: nat -> Attempt, maxRetries: int, result: Result, made: nat, slept: nat, i: nat)
    requires Outcome(attempt, maxRetries, result, made, slept) && i < maxRetries
    requires forall j: nat | j < i :: attempt(j).CannotSend? || (attempt(j).Response? && attempt(j).status >= 500)
    ensures var ends := made == i + 1 && slept == Pow2(i) - 1;
      match attempt(i)
      case CannotCreate(cause) => ends && result == Failed(Creating(cause))
      case NoCredentials(cause) => ends && result == Failed(Retrieving(cause))
      case CannotSign(cause) => ends && result == Failed(Signing(cause))
      case CannotRead(cause) => ends && result == Failed(Reading(cause))
      case CannotSend(_) => made >= i + 1
      case Response(status, body) =>
        if status < 400 then ends && result == Body(body)
        else if status < 500 then ends && result == Failed(ClientError(status, Excerpt(body)))
        else made >= i + 1
  {
    var ended := made > 0 && !Retryable(attempt(made - 1));
    assert ended ==> made - 1 >= i;
    assert !ended ==> made == maxRetries;
    assert made > i + 1 || (!ended && made > i) ==> Retryable(attempt(i));
  }

  /** When no attempt within the limit ends the call, all are made, and the last one's failure is reported. */
  lemma AllTried(attempt: nat -> Attempt, maxRetries: int, result: Result, made: nat, slept: nat)
    requires Outcome(attempt, maxRetries, result, made, slept)
    requires forall j: nat | j < maxRetries :: attempt(j).CannotSend? || (attempt(j).Response? && attempt(j).status >= 500)
    ensures if maxRetries <= 0 then made == 0 && slept == 0 && result == Failed(AllFailed(maxRetries, None))
      else
        && made == maxRetries && slept == Pow2(maxRetries - 1) - 1
        && result == Failed(AllFailed(maxRetries, Some(
             match attempt(maxRetries - 1)
             case CannotSend(cause) => Sending(cause)
             case Response(status, body) => ServerError(status, Excerpt(body))
             case _ => Sending(""))))
  {
  }

  /** The sum of the first sleeps: 1, 2, 4 and so on. */
  lemma SleepsMean(n: nat)
    ensures Pow2(0) - 1 == 0 && Pow2(n + 1) - 1 == (Pow2(n) - 1) + Pow2(n) && Pow2(n + 1) == 2 * Pow2(n)
  {
  }

  /** A larger limit never changes the result of a call that some attempt decided, nor the time it takes. */
  lemma MoreRetries(attempt: nat -> Attempt, limit: int, r1: Result, m1: nat, s1: nat, larger: int, r2: Result, m2: nat, s2: nat)
    requires Outcome(attempt, limit, r1, m1, s1) && Outcome(attempt, larger, r2, m2, s2) && limit <= larger
    ensures m1 > 0 && !Retryable(attempt(m1 - 1)) ==> (r1, m1, s1) == (r2, m2, s2)
    ensures r1.Body? ==> r2 == r1
    ensures s1 <= s2
  {
    Pow2Grows(if m1 > 0 then m1 - 1 else 0, if m2 > 0 then m2 - 1 else 0);
  }

  lemma {:induction false} Pow2Grows(a: nat, b: nat)
    ensures a <= b ==> Pow2(a) <= Pow2(b)
    ensures Pow2(b) >= 1
    decreases b
  {
    if b > 0 {
      Pow2Grows(a, b - 1);
    }
  }
}
