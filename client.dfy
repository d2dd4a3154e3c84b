/**
 * The completion client `_call_claude_api`: up to `max_retries` attempts,
 * the text of the first successful one, and an exponential backoff sleep
 * between attempts. The service is a scripted function of the prompt and
 * the attempt number; a sleep is recorded as its delay in seconds.
 */
module Client {
  import opened Wrappers

  /** The outcome of one call to the completion service. */
  datatype Reply = Answer(text: string) | Failure(message: string)

  /** The default of `max_retries`. */
  const DefaultRetries: int := 3

  function Pow2(n: nat): (r: nat)
    ensures r >= 1
  {
    if n == 0 then 1 else 2 * Pow2(n - 1)
  }

  /** The sleeps after the first `n` failed attempts: `2^0, 2^1, ..., 2^(n-1)` seconds. */
  function Backoff(n: nat): seq<nat>
  {
    seq(n, a requires 0 <= a < n => Pow2(a))
  }

  /** Every attempt before `n` fails. */
  ghost predicate FailsBefore<P>(service: (P, nat) -> Reply, prompt: P, n: nat)
  {
    forall a :: 0 <= a < n ==> service(prompt, a).Failure?
  }

  /**
   * Reference definition of what the client returns: the text of the first
   * successful attempt among attempts `from .. limit - 1`, if any.
   */
  function FirstAnswer<P>(service: (P, nat) -> Reply, prompt: P, from: nat, limit: int): Option<string>
    decreases limit - from
  {
    if from >= limit then None
    else if service(prompt, from).Answer? then Some(service(prompt, from).text)
    else FirstAnswer(service, prompt, from + 1, limit)
  }

  /** The first success from `from` on is the first attempt that succeeds. */
  lemma {:induction false} FirstAnswerIsFirstSuccess<P>(service: (P, nat) -> Reply, prompt: P, from: nat, limit: int, i: nat)
    requires from <= i < limit
    requires forall a :: from <= a < i ==> service(prompt, a).Failure?
    requires service(prompt, i).Answer?
    ensures FirstAnswer(service, prompt, from, limit) == Some(service(prompt, i).text)
    decreases i - from
  {
    if from < i {
      FirstAnswerIsFirstSuccess(service, prompt, from + 1, limit, i);
    }
  }

  /** No answer comes back exactly when every attempt in range fails. */
  lemma {:induction false} FirstAnswerNone<P>(service: (P, nat) -> Reply, prompt: P, from: nat, limit: int)
    ensures FirstAnswer(service, prompt, from, limit).None?
        <==> forall a :: from <= a < limit ==> service(prompt, a).Failure?
    decreases limit - from
  {
    if from < limit {
      FirstAnswerNone(service, prompt, from + 1, limit);
    }
  }

  /**
   * `_call_claude_api(prompt, max_retries)`. `attempts` counts the calls to
   * the service and `delays` lists the sleeps in the order they happen.
   */
  method CallWithRetry<P>(service: (P, nat) -> Reply, prompt: P, maxRetries: int)
    returns (reply: Option<string>, attempts: nat, delays: seq<nat>)
    ensures reply == FirstAnswer(service, prompt, 0, maxRetries)
    ensures reply.Some? ==> 1 <= attempts && attempts <= maxRetries
                            && service(prompt, attempts - 1) == Answer(reply.value)
                            && FailsBefore(service, prompt, attempts - 1)
    ensures reply.None? ==> attempts == (if maxRetries <= 0 then 0 else maxRetries)
                            && FailsBefore(service, prompt, attempts)
    ensures delays == Backoff(if attempts == 0 then 0 else attempts - 1)
  {
    reply, attempts, delays := None, 0, [];
    var attempt: nat := 0;
    while attempt < maxRetries
      invariant attempts == attempt
      invariant attempt == 0 || attempt < maxRetries
      invariant FailsBefore(service, prompt, attempt)
      invariant FirstAnswer(service, prompt, 0, maxRetries) == FirstAnswer(service, prompt, attempt, maxRetries)
      invariant delays == Backoff(attempt)
      decreases maxRetries - attempt
    {
      attempts := attempts + 1;
      var outcome := service(prompt, attempt);
      if outcome.Answer? {
        reply := Some(outcome.text);
        return;
      }
      if attempt < maxRetries - 1 {
        delays := delays + [Pow2(attempt)];
      } else {
        return;
      }
      attempt := attempt + 1;
    }
  }

  /**
   * The backoff sleeps start at one second, double each time and so
   * strictly increase.
   */
  lemma BackoffDoubles(n: nat)
    ensures n > 0 ==> Backoff(n)[0] == 1
    ensures forall a :: 0 < a < n ==> Backoff(n)[a] == 2 * Backoff(n)[a - 1]
    ensures forall a, b :: 0 <= a < b < n ==> Backoff(n)[a] < Backoff(n)[b]
  {
    forall a, b | 0 <= a < b < n
      ensures Pow2(a) < Pow2(b)
    {
      Pow2Increasing(a, b);
    }
  }

  lemma {:induction false} Pow2Increasing(a: nat, b: nat)
    requires a < b
    ensures Pow2(a) < Pow2(b)
    decreases b
  {
    if a < b - 1 {
      Pow2Increasing(a, b - 1);
    }
  }

  /**
   * A service that fails the first `k` times and then answers, with
   * `k < max_retries`, is answered after `k + 1` attempts and `k` sleeps.
   */
  lemma RecoversAfterFailures<P>(service: (P, nat) -> Reply, prompt: P, maxRetries: int, k: nat)
    requires k < maxRetries
    requires FailsBefore(service, prompt, k) && service(prompt, k).Answer?
    ensures FirstAnswer(service, prompt, 0, maxRetries) == Some(service(prompt, k).text)
  {
    FirstAnswerIsFirstSuccess(service, prompt, 0, maxRetries, k);
  }
}
