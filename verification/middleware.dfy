/** `withRateLimit` and the client identifier it keys buckets by.

    The request headers are inputs (`None` for a header that is absent), and
    the wrapped server action is an arbitrary total function `handler` from
    its arguments to its result; whatever the action returns, success or
    error object, is part of that result. The trace `handlerCalls` records
    the arguments of every call the wrapper makes to the handler. */
module RateLimitMiddleware {
  import opened Wrappers
  import opened Strings
  import opened RateLimit

  datatype Headers = Headers(forwardedFor: Option<string>, realIp: Option<string>, userAgent: Option<string>)

  const IDENTIFIER_MAX_LENGTH: nat := 100

  /** Seconds reported when the check gives no usable retry time. */
  const DEFAULT_RETRY_SECONDS: int := 3600

  /** Index of the first comma at or after `i`, or `|s|`. */
  function CommaIndex(s: string, i: nat): (j: nat)
    requires i <= |s|
    ensures i <= j <= |s|
    ensures forall k :: i <= k < j ==> s[k] != ','
    ensures j < |s| ==> s[j] == ','
    decreases |s| - i
  {
    if i == |s| || s[i] == ',' then i else CommaIndex(s, i + 1)
  }

  /** `s.split(',')[0]`: everything before the first comma. */
  function FirstSegment(s: string): (r: string)
    ensures ',' !in r
    ensures |r| <= |s| && r == s[..|r|]
    ensures |r| < |s| ==> s[|r|] == ','
  {
    s[..CommaIndex(s, 0)]
  }

  /** `a || b` on strings: the empty string is falsy. */
  function OrElse(a: Option<string>, b: string): string {
    if a.Some? && a.value != "" then a.value else b
  }

  /** The `ip` of `getClientIdentifier`. */
  function ClientIp(h: Headers): (ip: string)
    ensures ip != ""
    ensures h.forwardedFor.Some? && FirstSegment(h.forwardedFor.value) != "" ==>
      ip == FirstSegment(h.forwardedFor.value) && ',' !in ip
    ensures (h.forwardedFor.None? || FirstSegment(h.forwardedFor.value) == "") ==>
      ip == OrElse(h.realIp, "unknown")
  {
    var forwarded := if h.forwardedFor.Some? then Some(FirstSegment(h.forwardedFor.value)) else None;
    OrElse(forwarded, OrElse(h.realIp, "unknown"))
  }

  /** `getClientIdentifier`: `ip-userAgent`, cut to its first 100 characters. */
  function ClientIdentifier(h: Headers): (id: string)
    ensures var full := ClientIp(h) + "-" + OrElse(h.userAgent, "unknown");
      && |id| == (if |full| <= IDENTIFIER_MAX_LENGTH then |full| else IDENTIFIER_MAX_LENGTH)
      && id == full[..|id|]
    ensures 0 < |id| <= IDENTIFIER_MAX_LENGTH
  {
    var full := ClientIp(h) + "-" + OrElse(h.userAgent, "unknown");
    if |full| <= IDENTIFIER_MAX_LENGTH then full else full[..IDENTIFIER_MAX_LENGTH]
  }

  /** The class and cost fixed when an action is wrapped; `cost` defaults to 1. */
  datatype Gate = Gate(limitClass: LimitClass, cost: int)

  /** `withRateLimit(type)` with the default cost. */
  function DefaultGate(c: LimitClass): (g: Gate)
    ensures g.limitClass == c && g.cost == 1
  {
    Gate(c, 1)
  }

  /** The `RateLimitError` object: `rateLimited` is always `true`. */
  datatype RateLimitError = RateLimitError(error: string, retryAfter: int)

  /** What a wrapped action resolves to. */
  datatype Gated<R> = RateLimited(denial: RateLimitError) | Passed(value: R)

  /** `Math.ceil(retryAfter / 1000)` when `retryAfter` is truthy (present and
      non-zero), 3600 otherwise. */
  function RetryAfterSeconds(retryAfter: Option<int>): (n: int)
    ensures retryAfter.None? || retryAfter == Some(0) ==> n == DEFAULT_RETRY_SECONDS
    ensures retryAfter.Some? && retryAfter.value != 0 ==>
      (n - 1) * 1000 < retryAfter.value <= n * 1000
  {
    match retryAfter
    case Some(ms) => if ms != 0 then -((-ms) / 1000) else DEFAULT_RETRY_SECONDS
    case None => DEFAULT_RETRY_SECONDS
  }

  /** The denial message: a fixed prefix and suffix around the seconds
      rendered as JavaScript does, so that the number can be read back out
      of the message. */
  function RateLimitMessage(seconds: int): (m: string)
    ensures var prefix := "Rate limit exceeded. Please try again in ";
      var suffix := " seconds.";
      && |prefix| + |suffix| < |m|
      && m[..|prefix|] == prefix && m[|m| - |suffix|..] == suffix
      && (seconds >= 0 ==>
            var d := m[|prefix|..|m| - |suffix|];
            (forall k :: 0 <= k < |d| ==> IsDigit(d[k])) && DigitsValue(d) == seconds)
      && (seconds < 0 ==>
            var d := m[|prefix| + 1..|m| - |suffix|];
            && m[|prefix|] == '-'
            && (forall k :: 0 <= k < |d| ==> IsDigit(d[k])) && DigitsValue(d) == -seconds)
  {
    var prefix := "Rate limit exceeded. Please try again in ";
    var suffix := " seconds.";
    var n := IntToString(seconds);
    var m := prefix + n + suffix;
    NatToStringRoundTrip(if seconds >= 0 then seconds else -seconds);
    assert m[..|prefix|] == prefix && m[|m| - |suffix|..] == suffix;
    assert m[|prefix|..|m| - |suffix|] == n;
    assert seconds < 0 ==> m[|prefix| + 1..|m| - |suffix|] == n[1..];
    m
  }

  /** One call of a wrapped action: its effect on the store, what it
      resolves to, and the arguments the handler was called with. */
  datatype Invocation<A, R> = Invocation(store: Store, result: Gated<R>, handlerCalls: seq<A>)

  /** `withRateLimit(gate.limitClass, gate.cost)(handler)(args)`: exactly one
      rate-limit check for the requesting client; on denial a rate-limit
      error and no handler call, on admission one handler call whose result
      is returned as it is. */
  function Invoke<A, R>(gate: Gate, handler: A -> R, h: Headers, args: A, store: Store, now: int): (r: Invocation<A, R>)
    ensures var check := CheckRateLimit(store, ClientIdentifier(h), gate.limitClass, gate.cost, now);
      && r.store == check.store
      && (check.value.allowed ==> r.result == Passed(handler(args)) && r.handlerCalls == [args])
      && (!check.value.allowed ==>
            && r.handlerCalls == []
            && r.result.RateLimited?
            && r.result.denial.retryAfter == RetryAfterSeconds(check.value.retryAfter)
            && r.result.denial.error == RateLimitMessage(r.result.denial.retryAfter))
  {
    var check := CheckRateLimit(store, ClientIdentifier(h), gate.limitClass, gate.cost, now);
    if !check.value.allowed then
      var seconds := RetryAfterSeconds(check.value.retryAfter);
      Invocation(check.store, RateLimited(RateLimitError(RateLimitMessage(seconds), seconds)), [])
    else
      Invocation(check.store, Passed(handler(args)), [args])
  }

  /** `isRateLimitError` of the page: `result?.rateLimited === true`. The
      wrapped handlers' own results never carry a `rateLimited` field. */
  predicate IsRateLimitError<R>(g: Gated<R>) {
    g.RateLimited?
  }

  // ---------------------------------------------------------------------
  // Properties
  // ---------------------------------------------------------------------

  /** The page recognises a result as a rate-limit error exactly when the
      check denied, and the handler then ran zero times; otherwise it ran
      exactly once with the caller's arguments. */
  lemma RateLimitErrorIffDenied<A, R>(gate: Gate, handler: A -> R, h: Headers, args: A, store: Store, now: int)
    ensures var r := Invoke(gate, handler, h, args, store, now);
      var check := CheckRateLimit(store, ClientIdentifier(h), gate.limitClass, gate.cost, now);
      && (IsRateLimitError(r.result) <==> !check.value.allowed)
      && |r.handlerCalls| == (if check.value.allowed then 1 else 0)
      && (forall k :: 0 <= k < |r.handlerCalls| ==> r.handlerCalls[k] == args)
  {
  }

  /** Every configured class denies with `retryAfter` 3600 and the exact
      message "Rate limit exceeded. Please try again in 3600 seconds." */
  lemma DenialReportsOneHour<A, R>(gate: Gate, handler: A -> R, h: Headers, args: A, store: Store, now: int)
    requires !CheckRateLimit(store, ClientIdentifier(h), gate.limitClass, gate.cost, now).value.allowed
    ensures Invoke(gate, handler, h, args, store, now).result
         == RateLimited(RateLimitError("Rate limit exceeded. Please try again in 3600 seconds.", 3600))
  {
    assert RetryAfterSeconds(Some(HOUR_MS)) == 3600;
    OneHourMessage();
  }

  lemma OneHourMessage()
    ensures RateLimitMessage(3600) == "Rate limit exceeded. Please try again in 3600 seconds."
  {
    assert NatToString(3) == "3";
    assert NatToString(36) == NatToString(3) + "6";
    assert NatToString(360) == NatToString(36) + "0";
    assert NatToString(3600) == NatToString(360) + "0";
  }

  /** A forwarded-for list contributes its first entry, whatever follows. */
  lemma FirstSegmentOfList(first: string, rest: string)
    requires ',' !in first
    ensures FirstSegment(first + "," + rest) == first
  {
    var s := first + "," + rest;
    assert s[|first|] == ',';
  }

  lemma ForwardedForExample()
    ensures ClientIdentifier(Headers(Some("203.0.113.7, 10.0.0.1"), Some("10.0.0.2"), None))
         == "203.0.113.7-unknown"
  {
    FirstSegmentOfList("203.0.113.7", " 10.0.0.1");
    assert "203.0.113.7" + "," + " 10.0.0.1" == "203.0.113.7, 10.0.0.1";
  }

  /** With no usable header at all the identifier is `unknown-unknown`. */
  lemma NoHeadersExample()
    ensures ClientIdentifier(Headers(Some(",x"), Some(""), Some(""))) == "unknown-unknown"
  {
    assert CommaIndex(",x", 0) == 0;
  }
}
