/** Question answering with bounded retry (`ask_question` in test.py).
    The hosted model is replaced by an oracle: `replies(k)` is what the k-th
    invocation of the chain (counting from 0) returns or raises. */
module Retry {
  import opened Wrappers
  import opened Text

  /** What one invocation of the chain gives: the response content, or the
      text of the exception it raised. */
  type Reply = Result<string>

  /** The arguments of one invocation: the prompt variables `context` and `question`. */
  datatype Invocation = Invocation(context: string, question: string)

  /** The result of `ask_question`, with the number of invocations it made and
      the number of back-off waits it went through. */
  datatype Outcome = Outcome(answer: string, invocations: nat, waits: nat)

  const ContextLimit: nat := 4000
  const BaseDelay: nat := 1
  const DefaultMaxRetries: nat := 3
  /** The prefix of every error string `ask_question` builds (`f"Error: ..."`). */
  const ErrorPrefix := "Error: "
  const MaxRetriesMessage := ErrorPrefix + "Max retries reached due to rate limiting."

  /** `pdf_text[:4000]`. */
  function Context(pdfText: string): (r: string)
    ensures |r| == if |pdfText| <= ContextLimit then |pdfText| else ContextLimit
    ensures StartsWith(pdfText, r)
  {
    if |pdfText| <= ContextLimit then pdfText else pdfText[..ContextLimit]
  }

  /** A failure is retried only when its message contains "429". */
  predicate IsRateLimited(r: Reply) {
    r.Failure? && Contains(r.message, "429")
  }

  /** What `ask_question` returns for a reply that ends the loop. */
  function Answer(r: Reply): string {
    match r
    case Success(content) => content
    case Failure(message) => ErrorPrefix + message
  }

  /** `2 ** k`. */
  function Pow2(k: nat): (r: nat)
    ensures r >= 1
  {
    if k == 0 then 1 else 2 * Pow2(k - 1)
  }

  /** The deterministic parts of the first `n` back-off waits: wait k is
      `base_delay * 2 ** k`, so the first is `base_delay` and each later one
      doubles the one before. */
  function Backoff(n: nat): (r: seq<nat>)
    ensures |r| == n
    ensures forall k | 0 <= k < n :: r[k] == BaseDelay * Pow2(k)
    ensures n > 0 ==> r[0] == BaseDelay
    ensures forall k | 0 < k < n :: r[k] == 2 * r[k - 1]
  {
    if n == 0 then [] else Backoff(n - 1) + [BaseDelay * Pow2(n - 1)]
  }

  /** The outcome of the attempts numbered `attempt` up to `maxRetries - 1`,
      when every earlier attempt was rate limited. */
  function AskFrom(replies: nat -> Reply, maxRetries: nat, attempt: nat): (o: Outcome)
    requires attempt <= maxRetries
    ensures attempt <= o.invocations <= maxRetries
    ensures o.waits <= o.invocations
    decreases maxRetries - attempt
  {
    if attempt == maxRetries then Outcome(MaxRetriesMessage, attempt, attempt)
    else if IsRateLimited(replies(attempt)) then AskFrom(replies, maxRetries, attempt + 1)
    else Outcome(Answer(replies(attempt)), attempt + 1, attempt)
  }

  /** The outcome of `ask_question` with `max_retries = maxRetries`. */
  function Ask(replies: nat -> Reply, maxRetries: nat): Outcome {
    AskFrom(replies, maxRetries, 0)
  }

  /** `ask_question(chain, pdf_text, question, max_retries)`. Besides the answer
      it returns the invocations made, in order, and the deterministic part of
      every back-off wait, in order (the random jitter is left out). */
  method AskQuestion(pdfText: string, question: string, replies: nat -> Reply, maxRetries: nat)
    returns (answer: string, calls: seq<Invocation>, delays: seq<nat>)
    ensures answer == Ask(replies, maxRetries).answer
    ensures |calls| == Ask(replies, maxRetries).invocations <= maxRetries
    ensures forall k | 0 <= k < |calls| :: calls[k] == Invocation(Context(pdfText), question)
    ensures delays == Backoff(Ask(replies, maxRetries).waits)
  {
    calls, delays := [], [];
    for attempt := 0 to maxRetries
      invariant |calls| == attempt && delays == Backoff(attempt)
      invariant forall k | 0 <= k < attempt :: calls[k] == Invocation(Context(pdfText), question)
      invariant forall k | 0 <= k < attempt :: IsRateLimited(replies(k))
      invariant Ask(replies, maxRetries) == AskFrom(replies, maxRetries, attempt)
    {
      calls := calls + [Invocation(Context(pdfText), question)];
      match replies(attempt)
      case Success(content) =>
        assert AskFrom(replies, maxRetries, attempt) == Outcome(content, attempt + 1, attempt);
        answer := content;
        return;
      case Failure(message) =>
        if Contains(message, "429") {
          assert AskFrom(replies, maxRetries, attempt) == AskFrom(replies, maxRetries, attempt + 1);
          delays := delays + [BaseDelay * Pow2(attempt)];
        } else {
          assert AskFrom(replies, maxRetries, attempt) == Outcome(ErrorPrefix + message, attempt + 1, attempt);
          answer := ErrorPrefix + message;
          return;
        }
    }
    assert AskFrom(replies, maxRetries, maxRetries) == Outcome(MaxRetriesMessage, maxRetries, maxRetries);
    answer := MaxRetriesMessage;
  }

  // ---------------------------------------------------------------------------
  // The retry policy, attempt by attempt.

  /** With `max_retries = 0` nothing is invoked and the exhaustion message is returned. */
  lemma NoRetriesAllowed(replies: nat -> Reply)
    ensures Ask(replies, 0) == Outcome(MaxRetriesMessage, 0, 0)
  {
  }

  /** If attempt `k` is the first success, after `k` rate-limited failures, its
      content is returned after exactly `k + 1` invocations and `k` waits. */
  lemma {:induction false} FirstSuccess(replies: nat -> Reply, maxRetries: nat, k: nat, content: string)
    requires k < maxRetries
    requires forall j | 0 <= j < k :: IsRateLimited(replies(j))
    requires replies(k) == Success(content)
    ensures Ask(replies, maxRetries) == Outcome(content, k + 1, k)
  {
    SkipRateLimited(replies, maxRetries, k, 0);
  }

  /** A failure whose message does not contain "429", after `k` rate-limited
      failures, stops the loop at once: `"Error: " + msg` after `k + 1` invocations. */
  lemma {:induction false} OtherFailureStops(replies: nat -> Reply, maxRetries: nat, k: nat, msg: string)
    requires k < maxRetries
    requires forall j | 0 <= j < k :: IsRateLimited(replies(j))
    requires replies(k) == Failure(msg) && !Contains(msg, "429")
    ensures Ask(replies, maxRetries) == Outcome(ErrorPrefix + msg, k + 1, k)
  {
    SkipRateLimited(replies, maxRetries, k, 0);
  }

  /** When every attempt is rate limited, exactly `maxRetries` invocations and
      waits are made and the exhaustion message is returned. */
  lemma {:induction false} AllRateLimited(replies: nat -> Reply, maxRetries: nat)
    requires forall j | 0 <= j < maxRetries :: IsRateLimited(replies(j))
    ensures Ask(replies, maxRetries) == Outcome(MaxRetriesMessage, maxRetries, maxRetries)
  {
    SkipRateLimited(replies, maxRetries, maxRetries, 0);
  }

  /** Rate-limited attempts from `attempt` up to `k` are passed over. */
  lemma {:induction false} SkipRateLimited(replies: nat -> Reply, maxRetries: nat, k: nat, attempt: nat)
    requires attempt <= k <= maxRetries
    requires forall j | attempt <= j < k :: IsRateLimited(replies(j))
    ensures AskFrom(replies, maxRetries, attempt) == AskFrom(replies, maxRetries, k)
    decreases k - attempt
  {
    if attempt < k {
      SkipRateLimited(replies, maxRetries, k, attempt + 1);
    }
  }

  /** Every answer `ask_question` returns either carries the word "Error" or
      is the content of the successful reply to its last invocation. */
  lemma {:induction false} AnswerFlaggedOrGenuine(replies: nat -> Reply, maxRetries: nat, attempt: nat)
    requires attempt <= maxRetries
    ensures var o := AskFrom(replies, maxRetries, attempt);
      Contains(o.answer, "Error") || (o.invocations > 0 && replies(o.invocations - 1) == Success(o.answer))
    decreases maxRetries - attempt
  {
    var o := AskFrom(replies, maxRetries, attempt);
    if attempt == maxRetries {
      PrefixContains(ErrorPrefix, "Max retries reached due to rate limiting.", "Error");
    } else if IsRateLimited(replies(attempt)) {
      AnswerFlaggedOrGenuine(replies, maxRetries, attempt + 1);
    } else if replies(attempt).Failure? {
      PrefixContains(ErrorPrefix, replies(attempt).message, "Error");
    }
  }
}
