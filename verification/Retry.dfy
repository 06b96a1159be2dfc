/** pkg/client/controlplane.go and retry.go: retries with capped backoff, and one token refresh that does not count. */
module Retry {
  import opened Cidr
  import opened Text

  // ---- Backoff -------------------------------------------------------------------------------------------------------------

  const MAX_INT64: int := 0x7FFF_FFFF_FFFF_FFFF

  type Duration = d: int | -MAX_INT64 - 1 <= d <= MAX_INT64

  /** Doubling a positive duration in 64-bit two's complement. */
  function Doubled(d: Duration): Duration
    requires d > 0
  {
    if 2 * d > MAX_INT64 then 2 * d - 2 * (MAX_INT64 + 1) else 2 * d
  }

  /** The doubling wraps to a negative number exactly from 2^62 on. */
  lemma DoubledExactly(d: Duration)
    requires 0 < d < 0x8000_0000_0000_0000
    ensures Doubled(d) == if d < 0x4000_0000_0000_0000 then 2 * d else 2 * d - 0x1_0000_0000_0000_0000
  {
  }

  datatype RetryPolicy = RetryPolicy(maxAttempts: int, baseDelay: Duration, maxDelay: Duration)

  /** The delay over unbounded integers. Without a cap an overflowing delay falls back to the (non-positive) cap. */
  function Delay(p: RetryPolicy, k: nat): int {
    var d := p.baseDelay * Pow2(k);
    if p.baseDelay <= 0 then 0
    else if p.maxDelay > 0 then (if d < p.maxDelay then d else p.maxDelay)
    else if d <= MAX_INT64 then d
    else p.maxDelay
  }

  lemma DelayStep(base: int, k: nat)
    ensures base * Pow2(k + 1) == 2 * (base * Pow2(k))
  {
    var q := Pow2(k);
    assert base * (2 * q) == 2 * (base * q);
  }

  lemma {:induction false} DelayGrows(base: int, k: nat, n: nat)
    requires base > 0 && k <= n
    ensures base * Pow2(k) <= base * Pow2(n)
    decreases n - k
  {
    if k < n {
      DelayStep(base, k);
      MulMonotone(0, base, Pow2(k));
      DelayGrows(base, k + 1, n);
    }
  }

  /** `backoff`: for positive base and cap this is min(base * 2^k, cap), although it doubles in 64 bits. */
  method Backoff(p: RetryPolicy, attempt: int) returns (d: Duration)
    ensures d == Delay(p, if attempt < 0 then 0 else attempt)
  {
    if p.baseDelay <= 0 {
      return 0;
    }
    ghost var k: nat := if attempt < 0 then 0 else attempt;
    d := p.baseDelay;
    assert Pow2(0) == 1;
    var i := 0;
    while i < attempt
      invariant 0 <= i <= k && d == p.baseDelay * Pow2(i) > 0
    {
      DelayStep(p.baseDelay, i);
      DelayGrows(p.baseDelay, i + 1, k);
      d := Doubled(d);
      if p.maxDelay > 0 && d >= p.maxDelay {
        return p.maxDelay;
      }
      if d <= 0 {
        return p.maxDelay;
      }
      i := i + 1;
    }
    if p.maxDelay > 0 && d > p.maxDelay {
      return p.maxDelay;
    }
  }

  function Attempts(p: RetryPolicy): (n: nat)
    ensures n >= 1 && (p.maxAttempts >= 1 ==> n == p.maxAttempts)
  {
    if p.maxAttempts < 1 then 1 else p.maxAttempts
  }

  // ---- The loop -----------------------------------------------------------------------------------------------------------------

  /** What a request meets: it cannot be built, the transport fails, or a status comes back. */
  datatype Reply = Unbuildable | TransportError | Status(code: int)

  predicate IsAuthFailure(r: Reply) {
    r == Status(401) || r == Status(403)
  }

  predicate IsRetryable(r: Reply) {
    r.TransportError? || (r.Status? && (r.code == 429 || 500 <= r.code <= 599))
  }

  datatype Outcome = Answered(request: nat) | Exhausted(requests: nat) | Cancelled

  datatype Step = Sleep(backoff: nat) | Request(n: nat) | Refresh

  type Replies = nat -> Reply

  /** The reference: request `i` with `left` attempts to go. A first auth failure costs no attempt. */
  function Walk(replies: Replies, i: nat, left: nat, refreshed: bool): Outcome
    decreases left, !refreshed
  {
    if left == 0 then Exhausted(i)
    else if IsAuthFailure(replies(i)) && !refreshed then Walk(replies, i + 1, left, true)
    else if IsRetryable(replies(i)) then Walk(replies, i + 1, left - 1, refreshed)
    else Answered(i)
  }

  /** One turn of the loop: the backoff sleep, except before the first attempt, and the request. */
  function Turn(i: nat, attempt: nat): seq<Step> {
    (if attempt > 0 then [Sleep(attempt - 1)] else []) + [Request(i)]
  }

  /** What the loop does in order, from attempt `attempt` of `n` on. */
  function Trace(replies: Replies, i: nat, attempt: nat, n: nat, refreshed: bool): seq<Step>
    decreases n - attempt, !refreshed
  {
    if attempt >= n then []
    else if IsAuthFailure(replies(i)) && !refreshed then Turn(i, attempt) + [Refresh] + Trace(replies, i + 1, attempt, n, true)
    else if IsRetryable(replies(i)) then Turn(i, attempt) + Trace(replies, i + 1, attempt + 1, n, refreshed)
    else Turn(i, attempt)
  }

  function Requests(steps: seq<Step>): nat {
    if steps == [] then 0 else (if steps[0].Request? then 1 else 0) + Requests(steps[1..])
  }

  function Refreshes(steps: seq<Step>): nat {
    if steps == [] then 0 else (if steps[0].Refresh? then 1 else 0) + Refreshes(steps[1..])
  }

  /** The run so far: what was done, what is still to come, and whether the token was refreshed. */
  ghost predicate SoFar(replies: Replies, n: nat, steps: seq<Step>, i: nat, attempt: nat, refreshed: bool) {
    && attempt <= n && (refreshed <==> Refresh in steps)
    && Trace(replies, 0, 0, n, false) == steps + Trace(replies, i, attempt, n, refreshed)
    && Walk(replies, 0, n, false) == Walk(replies, i, n - attempt, refreshed)
  }

  lemma TurnRefreshes(replies: Replies, n: nat, steps: seq<Step>, i: nat, attempt: nat)
    requires SoFar(replies, n, steps, i, attempt, false) && attempt < n && IsAuthFailure(replies(i))
    ensures SoFar(replies, n, steps + Turn(i, attempt) + [Refresh], i + 1, attempt, true)
  {
    var rest := Trace(replies, i + 1, attempt, n, true);
    assert steps + (Turn(i, attempt) + [Refresh] + rest) == steps + Turn(i, attempt) + [Refresh] + rest;
  }

  lemma TurnRetries(replies: Replies, n: nat, steps: seq<Step>, i: nat, attempt: nat, refreshed: bool)
    requires SoFar(replies, n, steps, i, attempt, refreshed) && attempt < n
    requires !(IsAuthFailure(replies(i)) && !refreshed) && IsRetryable(replies(i))
    ensures SoFar(replies, n, steps + Turn(i, attempt), i + 1, attempt + 1, refreshed)
  {
    var rest := Trace(replies, i + 1, attempt + 1, n, refreshed);
    assert steps + (Turn(i, attempt) + rest) == steps + Turn(i, attempt) + rest;
    assert n - attempt - 1 == n - (attempt + 1);
  }

  lemma TurnAnswers(replies: Replies, n: nat, steps: seq<Step>, i: nat, attempt: nat, refreshed: bool)
    requires SoFar(replies, n, steps, i, attempt, refreshed) && attempt < n
    requires !(IsAuthFailure(replies(i)) && !refreshed) && !IsRetryable(replies(i))
    ensures Trace(replies, 0, 0, n, false) == steps + Turn(i, attempt) && Walk(replies, 0, n, false) == Answered(i)
    ensures refreshed <==> Refresh in steps + Turn(i, attempt)
  {
  }

  /** A reloaded token replaces the old one unless it is blank. */
  function Reloaded(token: string, loaded: string): string {
    if TrimSpace(loaded) != "" then TrimSpace(loaded) else token
  }

  class Client {
    var token: string
    const retry: RetryPolicy

    constructor (token: string, retry: RetryPolicy)
      ensures this.token == token && this.retry == retry
    {
      this.token := token;
      this.retry := retry;
    }

    method RefreshToken(loaded: string)
      modifies this
      ensures token == Reloaded(old(token), loaded)
    {
      var tok := TrimSpace(loaded);
      if tok != "" {
        token := tok;
      }
    }

    /** `authorizedDo`: unless a sleep is cancelled, the outcome is the reference's and the steps are the trace's. The
        token changes only through the one refresh. */
    method AuthorizedDo(replies: Replies, loaded: string, cancelled: nat -> bool) returns (o: Outcome, ghost steps: seq<Step>)
      modifies this
      ensures steps <= Trace(replies, 0, 0, Attempts(retry), false)
      ensures !o.Cancelled? ==> steps == Trace(replies, 0, 0, Attempts(retry), false) && o == Walk(replies, 0, Attempts(retry), false)
      ensures o.Cancelled? ==> exists k: nat :: cancelled(k)
      ensures token == if Refresh in steps then Reloaded(old(token), loaded) else old(token)
    {
      var n := Attempts(retry);
      var attempt, i, refreshed, sleeps := 0, 0, false, 0;
      steps := [];
      while attempt < n
        invariant SoFar(replies, n, steps, i, attempt, refreshed)
        invariant token == if refreshed then Reloaded(old(token), loaded) else old(token)
        decreases n - attempt, !refreshed
      {
        if attempt > 0 {
          if cancelled(sleeps) {
            return Cancelled, steps;
          }
          sleeps := sleeps + 1;
        }
        var reply := replies(i);
        if IsAuthFailure(reply) && !refreshed {
          TurnRefreshes(replies, n, steps, i, attempt);
          RefreshToken(loaded);
          refreshed := true;
          steps := steps + Turn(i, attempt) + [Refresh];
        } else if IsRetryable(reply) {
          TurnRetries(replies, n, steps, i, attempt, refreshed);
          steps := steps + Turn(i, attempt);
          attempt := attempt + 1;
        } else {
          TurnAnswers(replies, n, steps, i, attempt, refreshed);
          steps := steps + Turn(i, attempt);
          return Answered(i), steps;
        }
        i := i + 1;
      }
      return Exhausted(i), steps;
    }
  }

  // ---- What holds of every run ---------------------------------------------------------------------------------------------------

  lemma {:induction false} RequestsConcat(a: seq<Step>, b: seq<Step>)
    ensures Requests(a + b) == Requests(a) + Requests(b) && Refreshes(a + b) == Refreshes(a) + Refreshes(b)
  {
    if a == [] {
      assert a + b == b;
    } else {
      assert (a + b)[1..] == a[1..] + b;
      RequestsConcat(a[1..], b);
    }
  }

  lemma TurnCounts(attempt: nat, i: nat, rest: seq<Step>)
    ensures Requests(Turn(i, attempt)) == 1 && Refreshes(Turn(i, attempt)) == 0
    ensures Requests(Turn(i, attempt) + rest) == 1 + Requests(rest) && Refreshes(Turn(i, attempt) + rest) == Refreshes(rest)
    ensures Requests(Turn(i, attempt) + [Refresh] + rest) == 1 + Requests(rest)
    ensures Refreshes(Turn(i, attempt) + [Refresh] + rest) == 1 + Refreshes(rest)
  {
    var turn := Turn(i, attempt);
    assert [Request(i)][1..] == [] && [Refresh][1..] == [];
    if attempt > 0 {
      assert turn[1..] == [Request(i)];
    }
    RequestsConcat(turn, rest);
    RequestsConcat(turn, [Refresh]);
    RequestsConcat(turn + [Refresh], rest);
  }

  /** However the replies fall: at most one refresh, and at most one request more than the attempts, that one only
      thanks to a refresh. */
  lemma {:induction false} RequestsBounded(replies: Replies, i: nat, attempt: nat, n: nat, refreshed: bool)
    requires attempt <= n
    ensures var steps := Trace(replies, i, attempt, n, refreshed);
      && Refreshes(steps) <= (if refreshed then 0 else 1)
      && Requests(steps) <= n - attempt + Refreshes(steps)
    decreases n - attempt, !refreshed
  {
    if attempt < n {
      if IsAuthFailure(replies(i)) && !refreshed {
        RequestsBounded(replies, i + 1, attempt, n, true);
        TurnCounts(attempt, i, Trace(replies, i + 1, attempt, n, true));
      } else if IsRetryable(replies(i)) {
        RequestsBounded(replies, i + 1, attempt + 1, n, refreshed);
        TurnCounts(attempt, i, Trace(replies, i + 1, attempt + 1, n, refreshed));
      } else {
        TurnCounts(attempt, i, []);
      }
    }
  }

  /** The requests of a run are numbered in order without a gap, and the outcome names the last of them. */
  lemma {:induction false} OutcomeCounts(replies: Replies, i: nat, attempt: nat, n: nat, refreshed: bool)
    requires attempt <= n
    ensures var o, sent := Walk(replies, i, n - attempt, refreshed), Requests(Trace(replies, i, attempt, n, refreshed));
      && (o.Answered? ==> o.request == i + sent - 1)
      && (o.Exhausted? ==> o.requests == i + sent)
      && !o.Cancelled?
    decreases n - attempt, !refreshed
  {
    if attempt < n {
      if IsAuthFailure(replies(i)) && !refreshed {
        OutcomeCounts(replies, i + 1, attempt, n, true);
        TurnCounts(attempt, i, Trace(replies, i + 1, attempt, n, true));
      } else if IsRetryable(replies(i)) {
        OutcomeCounts(replies, i + 1, attempt + 1, n, refreshed);
        TurnCounts(attempt, i, Trace(replies, i + 1, attempt + 1, n, refreshed));
      } else {
        TurnCounts(attempt, i, []);
      }
    }
  }

  /** An answer is a final reply: neither retryable nor a first auth failure, and every reply before it was one. */
  lemma {:induction false} AnswerIsFinal(replies: Replies, i: nat, left: nat, refreshed: bool)
    ensures var o := Walk(replies, i, left, refreshed);
      o.Answered? ==>
        && i <= o.request && !IsRetryable(replies(o.request))
        && (IsAuthFailure(replies(o.request)) ==> refreshed || exists j :: i <= j < o.request && IsAuthFailure(replies(j)))
        && forall j :: i <= j < o.request ==> IsRetryable(replies(j)) || IsAuthFailure(replies(j))
    decreases left, !refreshed
  {
    if left > 0 {
      if IsAuthFailure(replies(i)) && !refreshed {
        AnswerIsFinal(replies, i + 1, left, true);
      } else if IsRetryable(replies(i)) {
        AnswerIsFinal(replies, i + 1, left - 1, refreshed);
      }
    }
  }

  /** The request after a refresh goes out at once if and only if nothing had been retried before: otherwise the loop
      sleeps the last backoff step a second time. */
  lemma RefreshIsImmediateExactly(replies: Replies, i: nat, attempt: nat, n: nat)
    requires attempt < n && IsAuthFailure(replies(i))
    ensures var rest := Trace(replies, i + 1, attempt, n, true);
      && Trace(replies, i, attempt, n, false) == Turn(i, attempt) + [Refresh] + rest
      && rest != [] && (rest[0] == Request(i + 1) <==> attempt == 0) && (attempt > 0 ==> rest[0] == Sleep(attempt - 1))
  {
    var rest := Trace(replies, i + 1, attempt, n, true);
    assert Turn(i + 1, attempt) <= rest;
    assert rest[0] == Turn(i + 1, attempt)[0];
  }

  lemma {:induction false} NoRefreshLeft(steps: seq<Step>)
    requires Refreshes(steps) == 0
    ensures Refresh !in steps
  {
    if steps != [] {
      NoRefreshLeft(steps[1..]);
    }
  }

  /** Wherever a run refreshes, it goes on at once only if the refresh answered the very first reply. */
  lemma {:induction false} AfterRefresh(replies: Replies, i: nat, attempt: nat, n: nat, k: nat)
    requires attempt <= n && k < |Trace(replies, i, attempt, n, false)| && Trace(replies, i, attempt, n, false)[k] == Refresh
    ensures k + 1 < |Trace(replies, i, attempt, n, false)|
    ensures Trace(replies, i, attempt, n, false)[k + 1].Request? <==> attempt == 0 && IsAuthFailure(replies(i))
    decreases n - attempt
  {
    var steps, turn := Trace(replies, i, attempt, n, false), Turn(i, attempt);
    assert forall j :: 0 <= j < |turn| ==> turn[j] != Refresh;
    if IsAuthFailure(replies(i)) {
      RefreshIsImmediateExactly(replies, i, attempt, n);
      var rest := Trace(replies, i + 1, attempt, n, true);
      RequestsBounded(replies, i + 1, attempt, n, true);
      NoRefreshLeft(rest);
      assert steps == turn + [Refresh] + rest;
      assert k == |turn| && steps[k + 1] == rest[0];
    } else if IsRetryable(replies(i)) {
      var rest := Trace(replies, i + 1, attempt + 1, n, false);
      assert steps == turn + rest;
      AfterRefresh(replies, i + 1, attempt + 1, n, k - |turn|);
    }
  }

  /** Of a whole run: the refreshed request goes out at once if and only if the first reply was the auth failure. */
  lemma RefreshImmediateOnFirst(replies: Replies, n: nat, k: nat)
    requires k < |Trace(replies, 0, 0, n, false)| && Trace(replies, 0, 0, n, false)[k] == Refresh
    ensures k + 1 < |Trace(replies, 0, 0, n, false)|
    ensures Trace(replies, 0, 0, n, false)[k + 1].Request? <==> IsAuthFailure(replies(0))
  {
    AfterRefresh(replies, 0, 0, n, k);
  }

  /** A run in which it does not: after a failed and an unauthorized reply the loop sleeps the same backoff twice. */
  lemma RefreshAfterRetrySleeps() returns (replies: Replies)
    ensures Trace(replies, 0, 0, 2, false) == [Request(0), Sleep(0), Request(1), Refresh, Sleep(0), Request(2)]
  {
    replies := (i: nat) => if i == 0 then Status(500) else if i == 1 then Status(401) else Status(200);
    assert Trace(replies, 2, 1, 2, true) == [Sleep(0), Request(2)];
    assert Trace(replies, 1, 1, 2, false) == [Sleep(0), Request(1)] + [Refresh] + [Sleep(0), Request(2)];
    assert Trace(replies, 0, 0, 2, false) == [Request(0)] + Trace(replies, 1, 1, 2, false);
  }

  lemma {:induction false} AlwaysRetried(replies: Replies, i: nat, left: nat, refreshed: bool)
    requires forall j :: IsRetryable(replies(j)) && !IsAuthFailure(replies(j))
    ensures Walk(replies, i, left, refreshed) == Exhausted(i + left)
    decreases left
  {
    if left > 0 {
      AlwaysRetried(replies, i + 1, left - 1, refreshed);
    }
  }

  /** What a server that always answers with one status gets: 429 and 500 to 599 are tried until the attempts run out, 401
      and 403 once more after a refresh, and every other status is the answer. */
  lemma StatusDecides(code: int, n: nat) returns (replies: Replies)
    requires n >= 1
    ensures forall i :: replies(i) == Status(code)
    ensures (Walk(replies, 0, n, false) ==
               if code == 429 || 500 <= code < 600 then Exhausted(n) else if code == 401 || code == 403 then Answered(1) else Answered(0))
  {
    replies := (i: nat) => Status(code);
    if code == 429 || 500 <= code < 600 {
      AlwaysRetried(replies, 0, n, false);
    }
  }

  /** A request that cannot be built is not tried again; one the transport loses is. */
  lemma FailuresDecide(n: nat) returns (unbuildable: Replies, lost: Replies)
    requires n >= 1
    ensures (forall i :: unbuildable(i) == Unbuildable) && Walk(unbuildable, 0, n, false) == Answered(0)
    ensures (forall i :: lost(i) == TransportError) && Walk(lost, 0, n, false) == Exhausted(n)
  {
    unbuildable, lost := (i: nat) => Unbuildable, (i: nat) => TransportError;
    AlwaysRetried(lost, 0, n, false);
  }
}
