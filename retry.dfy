/**
 * The bounded retry policy used around switch provisioning: call the
 * operation until it succeeds or the attempt budget is spent, with no
 * back-off, and surface the error of the last attempt.
 */
module RetryPolicy {

  import opened Wrappers

  /** What one call of the operation did: returned a value or threw an error. */
  datatype Outcome<+R, +E> = Ok(value: R) | Fail(error: E)

  /** What `retry` itself does: return a value, or throw (`undefined` is `None`). */
  datatype Retried<+R, +E> = Returned(value: R) | Threw(error: Option<E>)

  /** The number of attempts a budget allows: a budget of zero or less allows none. */
  function Budget(maxRetries: int): nat
  {
    if maxRetries < 0 then 0 else maxRetries
  }

  /** The number of calls made when the calls before `k` all failed. */
  function CallsFrom<R, E>(attempt: nat -> Outcome<R, E>, k: nat, n: nat): (c: nat)
    requires k <= n
    ensures k <= c <= n
    ensures k < n ==> k < c
    ensures forall j: nat :: k <= j < c - 1 ==> attempt(j).Fail?
    ensures c < n ==> attempt(c - 1).Ok?
    ensures c == n && k < n ==> attempt(n - 1).Ok? || (forall j: nat :: k <= j < n ==> attempt(j).Fail?)
    decreases n - k
  {
    if k == n then n
    else if attempt(k).Ok? then k + 1
    else CallsFrom(attempt, k + 1, n)
  }

  /** How many times `retry(maxRetries, f)` calls `f`: up to and including the first
      success, and never more than the budget. */
  function Calls<R, E>(maxRetries: int, attempt: nat -> Outcome<R, E>): (c: nat)
    ensures c <= Budget(maxRetries)
    ensures forall j: nat :: j < c - 1 ==> attempt(j).Fail?
    ensures c < Budget(maxRetries) ==> 0 < c && attempt(c - 1).Ok?
    ensures c == Budget(maxRetries) && 0 < c ==> attempt(c - 1).Ok? || (forall j: nat :: j < c ==> attempt(j).Fail?)
    ensures maxRetries > 0 ==> 0 < c
  {
    CallsFrom(attempt, 0, Budget(maxRetries))
  }

  /** What `retry(maxRetries, f)` returns or throws. */
  function RetryResult<R, E>(maxRetries: int, attempt: nat -> Outcome<R, E>): (r: Retried<R, E>)
    ensures r.Returned? ==> (exists j: nat :: j < Budget(maxRetries) && attempt(j) == Ok(r.value))
    ensures r.Threw? ==> forall j: nat :: j < Budget(maxRetries) ==> attempt(j).Fail?
    ensures r.Threw? ==> r.error == (if maxRetries <= 0 then None else Some(attempt(maxRetries - 1).error))
  {
    var c := Calls(maxRetries, attempt);
    if c == 0 then Threw(None)
    else match attempt(c - 1)
      case Ok(v) => Returned(v)
      case Fail(e) => Threw(Some(e))
  }

  /** `retry`: the loop counts attempts and remembers the last error. */
  method Retry<R, E>(maxRetries: int, attempt: nat -> Outcome<R, E>) returns (r: Retried<R, E>, calls: nat)
    ensures calls == Calls(maxRetries, attempt)
    ensures r == RetryResult(maxRetries, attempt)
    ensures r.Returned? <==> (exists j: nat :: j < Budget(maxRetries) && attempt(j).Ok?)
    ensures r.Returned? ==> 0 < calls && attempt(calls - 1) == Ok(r.value)
    ensures r.Threw? ==> calls == Budget(maxRetries)
  {
    var lastError: Option<E> := None;
    var retries: nat := 0;
    while retries < maxRetries
      invariant retries <= Budget(maxRetries)
      invariant forall j: nat :: j < retries ==> attempt(j).Fail?
      invariant lastError == if retries == 0 then None else Some(attempt(retries - 1).error)
      invariant Calls(maxRetries, attempt) == CallsFrom(attempt, retries, Budget(maxRetries))
    {
      match attempt(retries) {
        case Ok(v) =>
          r, calls := Returned(v), retries + 1;
          return;
        case Fail(e) =>
          lastError := Some(e);
      }
      retries := retries + 1;
    }
    r, calls := Threw(lastError), retries;
  }
}
