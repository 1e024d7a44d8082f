/** The private HTTP client's two interceptors, as one per-request state
    machine. The request phase attaches the bearer token; the response phase
    turns a first 401 into either a session teardown (when the failing call is
    the token-regeneration endpoint) or one refresh and one re-send.

    The server and the refresh hook are oracles: `server(k, req)` is the
    answer to the `k`-th send of this call, given the request as it left the
    request interceptor, and `refresh` is how the one refresh call ends. */
module AuthInterceptor {
  import opened Common
  import opened JsValue
  import opened Session

  /** The endpoint that mints a new access token. */
  const RegenerateUrl: string := "/auth/regenerate-token"

  /** The only endpoint sent as multipart form data. */
  const AddProductUrl: string := "/api/admin/add-product"

  /** The parts of an axios request config the interceptors read or write. */
  datatype Request = Request(url: string, headers: map<string, Value>, sent: bool)

  /** How one send ends: a 2xx response body, or an error with the response
      status when there was a response at all. */
  datatype HttpResult = Success(body: Value) | HttpError(status: Option<int>)

  /** How the awaited `refresh()` ends. */
  datatype RefreshOutcome = Refreshed(token: Value) | RefreshFailed

  /** How the caller's promise settles. `ResolvedEmpty` is the bare
      `return` of the teardown branch: the promise resolves with `undefined`. */
  datatype Settled =
    | Resolved(body: Value)
    | ResolvedEmpty
    | Rejected(failure: Failure)

  datatype Failure = HttpFailure(status: Option<int>) | RefreshFailure

  /** What the client did, in order. */
  datatype Event = Sent(request: Request) | RefreshCalled | SessionEnded

  datatype Exchange = Exchange(settled: Settled, session: Session, trace: seq<Event>)

  function Bearer(token: Value): Value {
    Str("Bearer " + ToText(token))
  }

  /** The request interceptor. */
  function PrepareRequest(req: Request, accessToken: Value): (r: Request)
    ensures r.url == req.url && r.sent == req.sent
    ensures Truthy(Get(req.headers, "Authorization")) ==>
              Get(r.headers, "Authorization") == Get(req.headers, "Authorization")
    ensures !Truthy(Get(req.headers, "Authorization")) ==>
              Get(r.headers, "Authorization") == Bearer(accessToken)
    ensures Get(r.headers, "Content-Type") ==
              if req.url == AddProductUrl then Str("multipart/form-data")
              else Get(req.headers, "Content-Type")
    ensures forall h :: h != "Authorization" && h != "Content-Type" ==>
              Get(r.headers, h) == Get(req.headers, h)
  {
    var h1 := if Truthy(Get(req.headers, "Authorization")) then req.headers
              else With(req.headers, "Authorization", Bearer(accessToken));
    var h2 := if req.url == AddProductUrl then With(h1, "Content-Type", Str("multipart/form-data"))
              else h1;
    req.(headers := h2)
  }

  /** How a send that is not eligible for the retry path settles: success
      passes through, every error is rejected as it came. */
  function SettleDirect(result: HttpResult): Settled {
    match result
    case Success(body) => Resolved(body)
    case HttpError(status) => Rejected(HttpFailure(status))
  }

  predicate IsRetryable(out: Request, result: HttpResult) {
    result == HttpError(Some(401)) && !out.sent
  }

  /** One call of the private client, from the request interceptor to the
      settled promise, with the retry it may trigger. */
  function Dispatch(req: Request, s: Session, server: (nat, Request) -> HttpResult,
                    refresh: RefreshOutcome, attempt: nat): (x: Exchange)
    ensures 1 <= |x.trace| <= 3
    ensures x.trace[0] == Sent(PrepareRequest(req, s.accessToken))
    ensures req.sent ==> |x.trace| == 1
    ensures forall k :: 1 <= k < |x.trace| && x.trace[k].Sent? ==>
              k == 2 && x.trace[1] == RefreshCalled && x.trace[k].request.sent
    ensures forall k :: 0 <= k < |x.trace| && x.trace[k] == RefreshCalled ==> k == 1
    ensures x.session == s || x.session == EndSession(s)
    decreases if req.sent then 0 else 1
  {
    var out := PrepareRequest(req, s.accessToken);
    var result := server(attempt, out);
    if !IsRetryable(out, result) then
      Exchange(SettleDirect(result), s, [Sent(out)])
    else
      var marked := out.(sent := true);
      if marked.url == RegenerateUrl then
        Exchange(ResolvedEmpty, EndSession(s), [Sent(out), SessionEnded])
      else
        match refresh
        case RefreshFailed =>
          Exchange(Rejected(RefreshFailure), s, [Sent(out), RefreshCalled])
        case Refreshed(token) =>
          var retry := marked.(headers := With(marked.headers, "Authorization", Bearer(token)));
          var next := Dispatch(retry, s, server, refresh, attempt + 1);
          Exchange(next.settled, next.session, [Sent(out), RefreshCalled] + next.trace)
  }

  function CountSends(trace: seq<Event>): (n: nat)
    ensures n <= |trace|
  {
    if |trace| == 0 then 0 else (if trace[0].Sent? then 1 else 0) + CountSends(trace[1..])
  }

  function CountRefreshes(trace: seq<Event>): (n: nat)
    ensures n <= |trace|
  {
    if |trace| == 0 then 0 else (if trace[0] == RefreshCalled then 1 else 0) + CountRefreshes(trace[1..])
  }

  lemma {:induction false} CountsOfShortTrace(trace: seq<Event>)
    requires 1 <= |trace| <= 3 && trace[0].Sent?
    requires forall k :: 1 <= k < |trace| && trace[k].Sent? ==> k == 2 && trace[1] == RefreshCalled
    requires forall k :: 0 <= k < |trace| && trace[k] == RefreshCalled ==> k == 1
    ensures CountSends(trace) <= 2 && CountRefreshes(trace) <= 1
    ensures CountSends(trace) == 2 ==> CountRefreshes(trace) == 1
  {
    var t1 := trace[1..];
    if |trace| >= 2 {
      var t2 := t1[1..];
      if |trace| == 3 {
        assert t2[1..] == [] && t2[0] == trace[2] && t1[0] == trace[1];
        assert trace[2] != RefreshCalled;
        assert trace[2].Sent? ==> trace[1] == RefreshCalled;
        assert CountSends(t2) == (if trace[2].Sent? then 1 else 0);
        assert CountRefreshes(t2) == 0;
      } else {
        assert t2 == [];
      }
    } else {
      assert t1 == [];
    }
  }

  /** No call of the private client sends its request more than twice or
      refreshes more than once, whatever the server and the refresh hook do;
      a second send always follows a refresh. */
  lemma RetryAtMostOnce(req: Request, s: Session, server: (nat, Request) -> HttpResult,
                        refresh: RefreshOutcome, attempt: nat)
    ensures var x := Dispatch(req, s, server, refresh, attempt);
            CountSends(x.trace) <= 2 && CountRefreshes(x.trace) <= 1
            && (CountSends(x.trace) == 2 ==> CountRefreshes(x.trace) == 1)
  {
    var x := Dispatch(req, s, server, refresh, attempt);
    CountsOfShortTrace(x.trace);
  }

  /** A request already marked `sent` is sent exactly once more and never
      triggers a refresh, even on a second 401. */
  lemma SentRequestsAreNotRetried(req: Request, s: Session, server: (nat, Request) -> HttpResult,
                                  refresh: RefreshOutcome, attempt: nat)
    requires req.sent
    ensures var x := Dispatch(req, s, server, refresh, attempt);
            x.trace == [Sent(PrepareRequest(req, s.accessToken))]
            && x.settled == SettleDirect(server(attempt, PrepareRequest(req, s.accessToken)))
            && x.session == s
  {
  }

  /** A failing call to the regeneration endpoint never calls refresh, so the
      refresh hook cannot loop through the interceptor. */
  lemma NoRefreshLoop(req: Request, s: Session, server: (nat, Request) -> HttpResult,
                      refresh: RefreshOutcome, attempt: nat)
    requires req.url == RegenerateUrl
    ensures RefreshCalled !in Dispatch(req, s, server, refresh, attempt).trace
    ensures CountSends(Dispatch(req, s, server, refresh, attempt).trace) == 1
  {
    var x := Dispatch(req, s, server, refresh, attempt);
    assert |x.trace| <= 2 && x.trace[0].Sent?;
    if |x.trace| == 2 {
      assert x.trace[1] == SessionEnded;
      assert x.trace[1..][1..] == [];
    } else {
      assert x.trace[1..] == [];
    }
  }

  /** A first 401 from the regeneration endpoint ends the session: the
      refresh token is nulled, the identity is dropped, and the caller's
      promise resolves with `undefined` instead of rejecting. */
  lemma DeadRefreshTokenEndsSession(req: Request, s: Session, server: (nat, Request) -> HttpResult,
                                    refresh: RefreshOutcome, attempt: nat)
    requires req.url == RegenerateUrl && !req.sent
    requires server(attempt, PrepareRequest(req, s.accessToken)) == HttpError(Some(401))
    ensures var x := Dispatch(req, s, server, refresh, attempt);
            x.settled == ResolvedEmpty && x.session == EndSession(s)
            && x.trace == [Sent(PrepareRequest(req, s.accessToken)), SessionEnded]
  {
  }

  /** A first 401 elsewhere is recovered transparently: one refresh, then the
      same request, now marked `sent` and carrying the new token, is sent once
      more, and whatever that second send yields is what the caller gets. */
  lemma ExpiredTokenRecovered(req: Request, s: Session, server: (nat, Request) -> HttpResult,
                              token: Value, attempt: nat)
    requires req.url != RegenerateUrl && !req.sent
    requires server(attempt, PrepareRequest(req, s.accessToken)) == HttpError(Some(401))
    ensures var x := Dispatch(req, s, server, Refreshed(token), attempt);
            var first := PrepareRequest(req, s.accessToken);
            var second := x.trace[2].request;
            |x.trace| == 3 && x.trace[1] == RefreshCalled && x.trace[2].Sent?
            && second.url == req.url && second.sent
            && Get(second.headers, "Authorization") == Bearer(token)
            && (forall h :: h != "Authorization" ==> Get(second.headers, h) == Get(first.headers, h))
            && x.settled == SettleDirect(server(attempt + 1, second))
            && x.session == s
  {
    var first := PrepareRequest(req, s.accessToken);
    var retry := first.(sent := true).(headers := With(first.headers, "Authorization", Bearer(token)));
    assert Truthy(Get(retry.headers, "Authorization"));
    var second := PrepareRequest(retry, s.accessToken);
    assert second.headers == retry.headers by {
      if req.url == AddProductUrl {
        assert Get(first.headers, "Content-Type") == Str("multipart/form-data");
        assert retry.headers["Content-Type" := Str("multipart/form-data")] == retry.headers;
      }
    }
  }

  /** A refresh that fails rejects the caller's promise after one send, and
      the session is left as the refresh hook left it. */
  lemma FailedRefreshRejects(req: Request, s: Session, server: (nat, Request) -> HttpResult,
                             attempt: nat)
    requires req.url != RegenerateUrl && !req.sent
    requires server(attempt, PrepareRequest(req, s.accessToken)) == HttpError(Some(401))
    ensures var x := Dispatch(req, s, server, RefreshFailed, attempt);
            x.settled == Rejected(RefreshFailure)
            && x.trace == [Sent(PrepareRequest(req, s.accessToken)), RefreshCalled]
  {
  }

  /** Successes and every error other than a first 401 reach the caller
      unchanged after a single send, and the session is untouched. */
  lemma OtherOutcomesPassThrough(req: Request, s: Session, server: (nat, Request) -> HttpResult,
                                 refresh: RefreshOutcome, attempt: nat)
    requires !IsRetryable(PrepareRequest(req, s.accessToken), server(attempt, PrepareRequest(req, s.accessToken)))
    ensures var x := Dispatch(req, s, server, refresh, attempt);
            x.settled == SettleDirect(server(attempt, PrepareRequest(req, s.accessToken)))
            && x.session == s && |x.trace| == 1
  {
  }
}
