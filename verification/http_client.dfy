/** `RetrofitClient`: the headers its interceptor adds to every request, the rule
    that decides which token goes out and to which hosts, and the retry loop on
    status 429 ("Too Many Requests", section 4 of RFC 6585). The server is an
    oracle giving the exchange for each attempt; the sleeps are recorded, not taken. */
module HttpClient {

  import opened Wrappers
  import opened Text
  import MultiPart

  const AcceptValue: string := "application/vnd.github.v3+json"
  const UserAgentValue: string := "GitHubAppStore-Android"
  const ApiHost: string := "api.github.com"
  const GitHubDomainSuffix: string := ".github.com"

  const MaxRetries: int := 3
  const BackoffStepMs: int := 2000
  const MaxWaitMs: int := 5000
  const TooManyRequests: int := 429

  /** The message of the `IllegalArgumentException` that Android's `Thread.sleep`
      throws for a negative duration: the duration follows "millis < 0: ". */
  function NegativeSleep(millis: int): (m: string)
    requires millis < 0
    ensures StartsWith(m, "millis < 0: -")
    ensures LongMin <= millis ==> ParseLong(m[12..]) == Some(millis)
  {
    var n := IntToString(millis);
    assert ("millis < 0: " + n)[12..] == n;
    assert LongMin <= millis ==> ParseLong(n) == Some(millis) by {
      if LongMin <= millis {
        ParseLongRoundTrip(millis);
      }
    }
    assert n[0] == '-';
    StartsWithConcat("millis < 0: ", n);
    assert ("millis < 0: " + n)[..13] == "millis < 0: " + [n[0]];
    "millis < 0: " + n
  }

  // ---------------------------------------------------------------------------
  // Tokens and headers

  /** `getAuthToken`: a non-blank token from the sign-in flow wins (it is only looked
      up once the client knows the application context); otherwise the token set by
      hand, which may be absent or blank. */
  function AuthToken(hasContext: bool, oauthToken: Option<string>, manualToken: Option<string>): (r: Option<string>)
    ensures hasContext && !IsNullOrBlank(oauthToken) ==> r == oauthToken
    ensures !hasContext || IsNullOrBlank(oauthToken) ==> r == manualToken
    ensures r == oauthToken || r == manualToken
  {
    if hasContext && !IsNullOrBlank(oauthToken) then oauthToken else manualToken
  }

  /** Hosts that receive the token: GitHub's API host and its other subdomains. */
  predicate ReceivesToken(host: string) {
    Lower(host) == ApiHost || EndsWith(Lower(host), GitHubDomainSuffix)
  }

  /** The headers the interceptor adds: Accept and User-Agent always, then the bearer
      token for GitHub hosts when there is a non-blank one. */
  function AddedHeaders(host: string, token: Option<string>): (r: seq<(string, string)>)
    ensures |r| >= 2 && r[0] == ("Accept", AcceptValue) && r[1] == ("User-Agent", UserAgentValue)
    ensures |r| == 3 <==> ReceivesToken(host) && !IsNullOrBlank(token)
    ensures |r| <= 3
    ensures |r| == 3 ==> r[2] == ("Authorization", "Bearer " + token.value)
  {
    var base := [("Accept", AcceptValue), ("User-Agent", UserAgentValue)];
    if ReceivesToken(host) && !IsNullOrBlank(token) then base + [("Authorization", "Bearer " + token.value)]
    else base
  }

  /** The request headers as this interceptor leaves them: the caller's headers, then
      the added ones. The cache interceptor's `Cache-Control` on the reply is not part
      of this model. */
  function InterceptHeaders(host: string, headers: seq<(string, string)>, hasContext: bool,
                            oauthToken: Option<string>, manualToken: Option<string>): (r: seq<(string, string)>)
    ensures |r| >= |headers| + 2 && r[..|headers|] == headers
    ensures r[|headers|..] == AddedHeaders(host, AuthToken(hasContext, oauthToken, manualToken))
  {
    var added := AddedHeaders(host, AuthToken(hasContext, oauthToken, manualToken));
    assert (headers + added)[..|headers|] == headers;
    headers + added
  }

  /** Whether the server gets an Authorization header from the interceptor. */
  predicate SendsToken(host: string, hasContext: bool, oauthToken: Option<string>, manualToken: Option<string>) {
    |AddedHeaders(host, AuthToken(hasContext, oauthToken, manualToken))| == 3
  }

  /** Raw-content and other `githubusercontent.com` hosts never see the token. */
  lemma ContentHostsGetNoToken(host: string, hasContext: bool, oauthToken: Option<string>, manualToken: Option<string>)
    requires EndsWith(Lower(host), "githubusercontent.com")
    ensures !SendsToken(host, hasContext, oauthToken, manualToken)
  {
    var h := Lower(host);
    assert h[|h| - 11] == 'c' by {
      assert h[|h| - 21..][10] == h[|h| - 11];
    }
  }

  /** The sign-in token is the one sent whenever it is non-blank, whatever was set by hand. */
  lemma OAuthTokenSentFirst(host: string, oauthToken: Option<string>, manualToken: Option<string>)
    requires ReceivesToken(host) && !IsNullOrBlank(oauthToken)
    ensures AddedHeaders(host, AuthToken(true, oauthToken, manualToken))[2] == ("Authorization", "Bearer " + oauthToken.value)
  {
  }

  /** No token at all, or only blank ones, means no Authorization header on any host. */
  lemma BlankTokensSendNothing(host: string, hasContext: bool, oauthToken: Option<string>, manualToken: Option<string>)
    requires IsNullOrBlank(manualToken)
    ensures !SendsToken(host, hasContext, oauthToken, manualToken) <==> !hasContext || IsNullOrBlank(oauthToken) || !ReceivesToken(host)
  {
  }

  // ---------------------------------------------------------------------------
  // Retrying on 429

  /** The wait before retry `k` (from 1): the `Retry-After` field read as a whole
      number, or `k` times two seconds when it is absent or not a number, capped at
      five seconds. The number is taken as milliseconds, although section 10.2.3 of
      RFC 9110 gives it in seconds. */
  function RetryWait(k: int, reply: MultiPart.HttpReply): (w: int)
    ensures w <= MaxWaitMs
    ensures MultiPart.Header(reply.headers, "Retry-After").None? ==> w == if k * BackoffStepMs < MaxWaitMs then k * BackoffStepMs else MaxWaitMs
  {
    var field := MultiPart.Header(reply.headers, "Retry-After");
    var retryAfter := if field.Some? && ParseLong(field.value).Some? then ParseLong(field.value).value else k * BackoffStepMs;
    if retryAfter < MaxWaitMs then retryAfter else MaxWaitMs
  }

  predicate IsTooMany(ex: MultiPart.Exchange) {
    ex.Answered? && ex.reply.code == TooManyRequests
  }

  /** What the interceptor returns (`result`), how many calls it made, the sleeps it
      took, and whether a sleep threw. */
  datatype RetryRun = RetryRun(result: MultiPart.Exchange, calls: nat, waits: seq<int>, sleepFailed: bool)

  /** The retry interceptor: calls again while the answer is 429 and fewer than three
      retries were made, sleeping `RetryWait` before each retry; an exception from the
      server or from a negative sleep ends the call. */
  method RetryOnTooMany(server: nat -> MultiPart.Exchange) returns (run: RetryRun)
    ensures 1 <= run.calls <= MaxRetries + 1
    ensures |run.waits| == run.calls - 1
    ensures forall k :: 0 <= k < run.calls - 1 ==>
              IsTooMany(server(k)) && run.waits[k] == RetryWait(k + 1, server(k).reply) && run.waits[k] >= 0
    ensures !run.sleepFailed ==> run.result == server(run.calls - 1)
    ensures !run.sleepFailed && IsTooMany(run.result) ==> run.calls == MaxRetries + 1
    ensures run.sleepFailed ==>
              && run.calls <= MaxRetries
              && IsTooMany(server(run.calls - 1))
              && RetryWait(run.calls, server(run.calls - 1).reply) < 0
              && run.result == MultiPart.Failed(Some(NegativeSleep(RetryWait(run.calls, server(run.calls - 1).reply))))
  {
    var response := server(0);
    var tryCount := 0;
    var waits: seq<int> := [];
    while IsTooMany(response) && tryCount < MaxRetries
      invariant 0 <= tryCount <= MaxRetries
      invariant |waits| == tryCount
      invariant response == server(tryCount)
      invariant forall k :: 0 <= k < tryCount ==>
                  IsTooMany(server(k)) && waits[k] == RetryWait(k + 1, server(k).reply) && waits[k] >= 0
    {
      var wait := RetryWait(tryCount + 1, response.reply);
      if wait < 0 {
        return RetryRun(MultiPart.Failed(Some(NegativeSleep(wait))), tryCount + 1, waits, true);
      }
      tryCount := tryCount + 1;
      waits := waits + [wait];
      response := server(tryCount);
    }
    return RetryRun(response, tryCount + 1, waits, false);
  }

  /** Without a `Retry-After` field the waits are 2, 4 and 5 seconds. */
  lemma DefaultBackoff(reply: MultiPart.HttpReply)
    requires MultiPart.Header(reply.headers, "Retry-After").None?
    ensures RetryWait(1, reply) == 2000 && RetryWait(2, reply) == 4000 && RetryWait(3, reply) == 5000
  {
  }

  /** A `Retry-After` of `n` below five thousand means a wait of `n` milliseconds. */
  lemma RetryAfterIsMilliseconds(k: int, reply: MultiPart.HttpReply, n: int)
    requires 0 <= n < MaxWaitMs
    requires MultiPart.Header(reply.headers, "Retry-After") == Some(IntToString(n))
    ensures RetryWait(k, reply) == n
  {
    ParseLongRoundTrip(n);
  }

  /** A negative `Retry-After` makes the first retry's sleep throw. */
  lemma NegativeRetryAfterThrows(k: int, reply: MultiPart.HttpReply, n: int)
    requires LongMin <= n < 0
    requires MultiPart.Header(reply.headers, "Retry-After") == Some(IntToString(n))
    ensures RetryWait(k, reply) == n < 0
  {
    ParseLongRoundTrip(n);
  }
}
