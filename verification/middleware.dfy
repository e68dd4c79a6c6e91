/** The request admission adapter (internal/middleware/middleware.go): derives
    the address and the token from a request, asks the limiter, and turns its
    answer into pass-through, 429 with a fixed JSON body, or 500. */
module Middleware {
  import opened Wrappers
  import opened Strategy
  import opened Keys
  import opened Limiter
  import opened Text

  /** The parts of an HTTP request the middleware reads: each header's first
      value by name, and the peer address. */
  datatype Request = Request(header: map<string, string>, remoteAddr: string)

  const ApiKeyHeader: string := "API_KEY"
  const ForwardedForHeader: string := "X-Forwarded-For"
  const RealIpHeader: string := "X-Real-IP"

  /** Header.Get: the value, or "" when the header is absent. */
  function HeaderGet(req: Request, name: string): string {
    if name in req.header then req.header[name] else ""
  }

  /** getClientIP: the first X-Forwarded-For hop, trimmed; else X-Real-IP as
      given; else the host part of the peer address, or the whole peer address
      when it does not split into host and port. */
  function ClientIP(req: Request): (ip: string)
    ensures HeaderGet(req, ForwardedForHeader) != "" ==> Trimmed(ip) && ',' !in ip
    ensures HeaderGet(req, ForwardedForHeader) == "" && HeaderGet(req, RealIpHeader) != "" ==>
              ip == HeaderGet(req, RealIpHeader)
    ensures HeaderGet(req, ForwardedForHeader) == "" && HeaderGet(req, RealIpHeader) == "" ==>
              ip == match SplitHostPort(req.remoteAddr)
                    case Success(hp) => hp.host
                    case Failure(_) => req.remoteAddr
  {
    var xff := HeaderGet(req, ForwardedForHeader);
    var ips := Split(xff, ',');
    if xff != "" && |ips| > 0 then
      TrimNoComma(ips[0]);
      TrimSpace(ips[0])
    else
      var xri := HeaderGet(req, RealIpHeader);
      if xri != "" then xri
      else
        match SplitHostPort(req.remoteAddr)
        case Success(hp) => hp.host
        case Failure(_) => req.remoteAddr
  }

  /** Trimming keeps a comma-free field comma-free. */
  lemma TrimNoComma(s: string)
    requires ',' !in s
    ensures ',' !in TrimSpace(s)
  {
    TrimSpaceInfix(s);
    var a := SkipSpace(s, 0);
    SliceKeepsAbsent(s, ',', a, a + |TrimSpace(s)|);
  }

  /** A slice holds no element its sequence does not hold. */
  lemma SliceKeepsAbsent<T>(s: seq<T>, x: T, i: nat, j: nat)
    requires x !in s && i <= j <= |s|
    ensures x !in s[i..j]
  {
    assert forall k | 0 <= k < j - i :: s[i..j][k] == s[i + k];
  }

  /** A forwarded-for header whose first hop is `core`, possibly padded with
      space, yields `core`, whatever follows the first comma. */
  lemma ForwardedForFirstHop(req: Request, lead: string, core: string, trail: string, rest: string)
    requires AllSpace(lead) && AllSpace(trail) && Trimmed(core) && ',' !in core
    requires rest == [] || rest[0] == ','
    requires HeaderGet(req, ForwardedForHeader) == lead + core + trail + rest != ""
    ensures ClientIP(req) == core
  {
    var xff := HeaderGet(req, ForwardedForHeader);
    var hop := lead + core + trail;
    assert ',' !in lead by { assert !IsSpace(','); }
    assert ',' !in trail by { assert !IsSpace(','); }
    assert ',' !in hop;
    SplitFirst(xff, ',');
    if rest == [] {
      assert xff == hop;
    } else {
      assert xff[|hop|] == ',';
      assert xff[..|hop|] == hop;
      IndexOfAt(xff, ',', |hop|);
    }
    TrimSpaceStrips(lead, core, trail);
  }

  /** A non-empty X-Forwarded-For decides alone: X-Real-IP and the peer address
      make no difference. */
  lemma ForwardedForOverrides(req: Request, realIp: string, remoteAddr: string)
    requires HeaderGet(req, ForwardedForHeader) != ""
    ensures ClientIP(req) == ClientIP(Request(req.header[RealIpHeader := realIp], remoteAddr))
  {
    var req' := Request(req.header[RealIpHeader := realIp], remoteAddr);
    assert HeaderGet(req', ForwardedForHeader) == HeaderGet(req, ForwardedForHeader);
  }

  /** With both proxy headers empty, a peer address built from a host and a
      port yields that host. */
  lemma RemoteAddrHost(req: Request, host: string, port: string)
    requires HeaderGet(req, ForwardedForHeader) == "" && HeaderGet(req, RealIpHeader) == ""
    requires '[' !in host && ']' !in host && ':' !in port && '[' !in port && ']' !in port
    requires req.remoteAddr == JoinHostPort(host, port)
    ensures ClientIP(req) == host
  {
    SplitJoinHostPort(host, port);
  }

  /** With both proxy headers empty, a peer address without a colon is used whole. */
  lemma RemoteAddrWithoutPort(req: Request)
    requires HeaderGet(req, ForwardedForHeader) == "" && HeaderGet(req, RealIpHeader) == ""
    requires ':' !in req.remoteAddr
    ensures ClientIP(req) == req.remoteAddr
  {
  }

  /** What the middleware does with a request: hand it on, or answer itself. */
  datatype Response =
    | Forward(request: Request)
    | Reply(status: int, contentType: string, body: string)

  const StatusTooManyRequests: int := 429
  const StatusInternalServerError: int := 500

  const DenyMessage: string :=
    "you have reached the maximum number of requests or actions allowed within a certain time frame"
  /** The 429 body: a JSON object whose one member "error" holds the message. */
  const DenyBody: string := "{\"error\":\"" + DenyMessage + "\"}"

  /** http.Error's reply: plain text, the message and a newline. */
  const ErrorContentType: string := "text/plain; charset=utf-8"
  const ErrorBody: string := "Internal server error\n"

  /** The branch on the limiter's answer: an error is a 500, a denial a 429
      with the JSON body, an admission hands the request on untouched. */
  function Respond(req: Request, decision: Result<bool, Err>): (r: Response)
    ensures r.Forward? <==> decision == Success(true)
    ensures r.Forward? ==> r.request == req
    ensures decision.Failure? <==> r.Reply? && r.status == StatusInternalServerError
    ensures decision == Success(false) <==> r.Reply? && r.status == StatusTooManyRequests
    ensures decision == Success(false) ==>
              r.contentType == "application/json" && r.body == DenyBody
  {
    match decision
    case Failure(_) => Reply(StatusInternalServerError, ErrorContentType, ErrorBody)
    case Success(false) => Reply(StatusTooManyRequests, "application/json", DenyBody)
    case Success(true) => Forward(req)
  }

  /** Every answer of the limiter gives exactly one of: hand on, 429, 500. */
  lemma ExactlyOneOutcome(req: Request, decision: Result<bool, Err>)
    ensures var r := Respond(req, decision);
            (if r.Forward? then 1 else 0)
            + (if r.Reply? && r.status == StatusTooManyRequests then 1 else 0)
            + (if r.Reply? && r.status == StatusInternalServerError then 1 else 0) == 1
  {
  }

  /** The response and the limiter's outcome for one request. */
  datatype Served = Served(response: Response, engine: Outcome)

  /** RateLimiterMiddleware's handler: the API_KEY header is the token, the
      client address is the address, and the limiter's answer picks the response. */
  function Handle(rl: RateLimiter, s: Store, req: Request, o: Oracle): (r: Served)
    ensures r.engine == Allow(rl, s, ClientIP(req), HeaderGet(req, ApiKeyHeader), o)
    ensures r.response == Respond(req, r.engine.result)
    ensures Denied(r.engine) ==> r.response.contentType == "application/json" && r.response.body == DenyBody
    ensures r.response.Forward? <==> Admitted(r.engine)
    ensures r.response.Forward? ==> r.response.request == req
    ensures r.response.Reply? && r.response.status == StatusInternalServerError <==> r.engine.result.Failure?
    ensures r.response.Reply? && r.response.status == StatusTooManyRequests <==> Denied(r.engine)
    ensures Denied(r.engine) ==> r.engine.store == s
    ensures HeaderGet(req, ApiKeyHeader) != "" ==>
              forall i | 0 <= i < |r.engine.calls| :: r.engine.calls[i].key == KeyOf(Token(HeaderGet(req, ApiKeyHeader)))
    ensures HeaderGet(req, ApiKeyHeader) == "" ==>
              forall i | 0 <= i < |r.engine.calls| :: r.engine.calls[i].key == KeyOf(Address(ClientIP(req)))
  {
    var ip := ClientIP(req);
    var token := HeaderGet(req, ApiKeyHeader);
    var engine := Allow(rl, s, ip, token, o);
    assert Denied(engine) ==> engine == Check(s, KeyOf(Subject(ip, token)), PolicyFor(rl, Subject(ip, token)), o);
    Served(Respond(req, engine.result), engine)
  }

  /** The token handed to the limiter is exactly the API_KEY header: two
      requests with the same API_KEY get the same answer whatever their
      addresses, as long as the key is non-empty. */
  lemma ApiKeyDecides(rl: RateLimiter, s: Store, req1: Request, req2: Request, o: Oracle)
    requires HeaderGet(req1, ApiKeyHeader) == HeaderGet(req2, ApiKeyHeader) != ""
    ensures Handle(rl, s, req1, o).engine == Handle(rl, s, req2, o).engine
    ensures Respond(req2, Handle(rl, s, req1, o).engine.result) == Handle(rl, s, req2, o).response
  {
    TokenPrecedence(rl, s, ClientIP(req1), ClientIP(req2), HeaderGet(req1, ApiKeyHeader), o);
  }
}
