/**
 * The bounded retry loop used for both the CNPS page and each GBIF search:
 * up to three GET attempts, stopping at the first HTTP 200. An attempt
 * either raises a request exception or yields a response; the response held
 * after the loop is the last one received.
 */
module Retry {
  import opened Wrappers

  const MaxAttempts: nat := 3

  datatype Response<B> = Response(status: int, body: B)

  /** The outcome of one GET request. */
  datatype Attempt<B> = Raised | Responded(response: Response<B>)

  predicate IsOk<B>(a: Attempt<B>) {
    a.Responded? && a.response.status == 200
  }

  /** Attempts from index i on that the loop makes, counting attempt i itself. */
  function AttemptsFrom<B>(call: nat -> Attempt<B>, i: nat): (n: nat)
    requires i < MaxAttempts
    ensures 1 <= n <= MaxAttempts - i
    ensures forall k :: i <= k < i + n - 1 ==> !IsOk(call(k))
    ensures i + n < MaxAttempts ==> IsOk(call(i + n - 1))
    decreases MaxAttempts - i
  {
    if IsOk(call(i)) || i == MaxAttempts - 1 then 1 else 1 + AttemptsFrom(call, i + 1)
  }

  /**
   * The number of attempts made: one more than the index of the first
   * attempt that returned 200, or three when none of the first two did.
   */
  function AttemptsMade<B>(call: nat -> Attempt<B>): (n: nat)
    ensures 1 <= n <= MaxAttempts
    ensures forall k :: 0 <= k < n - 1 ==> !IsOk(call(k))
    ensures n < MaxAttempts ==> IsOk(call(n - 1))
  {
    AttemptsFrom(call, 0)
  }

  /** The last response received among the first n attempts, if any. */
  function LastResponse<B>(call: nat -> Attempt<B>, n: nat): (r: Option<Response<B>>)
    ensures r.None? <==> forall k :: 0 <= k < n ==> call(k).Raised?
    ensures r.Some? ==> exists k :: 0 <= k < n && call(k) == Responded(r.value)
  {
    if n == 0 then None
    else if call(n - 1).Responded? then Some(call(n - 1).response)
    else LastResponse(call, n - 1)
  }

  /**
   * The held response comes from the latest attempt that did not raise:
   * later attempts that raised leave it in place.
   */
  lemma {:induction false} LastResponseIsLatest<B>(call: nat -> Attempt<B>, n: nat, k: nat)
    requires k < n && call(k).Responded?
    requires forall j :: k < j < n ==> call(j).Raised?
    ensures LastResponse(call, n) == Some(call(k).response)
    decreases n
  {
    if k < n - 1 {
      LastResponseIsLatest(call, n - 1, k);
    }
  }

  /**
   * `for i in range(3): ... get ... if status == 200: break`. `call(i)` is
   * what the i-th GET produces. Returns the response held afterwards (None
   * when every attempt raised) and the number of attempts made.
   */
  method FetchWithRetry<B>(call: nat -> Attempt<B>) returns (response: Option<Response<B>>, attempts: nat)
    ensures attempts == AttemptsMade(call)
    ensures response == LastResponse(call, attempts)
    ensures IsOk(call(attempts - 1)) ==> response == Some(call(attempts - 1).response)
  {
    response := None;
    attempts := 0;
    for i := 0 to MaxAttempts
      invariant attempts == i
      invariant forall k :: 0 <= k < i ==> !IsOk(call(k))
      invariant response == LastResponse(call, i)
    {
      var outcome := call(i);
      attempts := attempts + 1;
      if outcome.Responded? {
        response := Some(outcome.response);
        if outcome.response.status == 200 {
          break;
        }
      }
    }
  }
}
