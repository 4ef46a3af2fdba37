/**
  Per-request dispatch of the gateway: the fail-closed pipeline of
  raxis/gateway/src/dispatch.rs over the policy snapshot of raxis/gateway/src/policy_view.rs.
 */
module Dispatch {
  import opened Wrappers
  import opened Basics

  type Bytes = seq<bv8>
  type Header = (string, string)

  datatype FetchKind = Inference | DataFetch

  datatype Provider = Provider(
    providerId: string,
    kind: string,
    inferenceTimeoutMs: nat,
    dataFetchTimeoutMs: nat,
    maxResponseBytes: nat,
    streamIdleTimeoutMs: Option<nat>,
    sidecarEndpoint: Option<string>,
    apiKey: string)

  datatype PolicyView = PolicyView(
    epoch: nat,
    egressDomains: seq<string>,
    egressPatterns: seq<string>,
    providers: map<string, Provider>,
    providerOrder: seq<string>)

  datatype FetchRequest = FetchRequest(
    fetchId: nat,
    token: string,
    kind: FetchKind,
    url: string,
    verb: string,
    headers: seq<Header>,
    body: Bytes,
    timeoutMs: nat)

  datatype FetchResponse = FetchResponse(
    fetchId: nat,
    statusCode: Option<nat>,
    headers: seq<Header>,
    body: Option<Bytes>,
    latencyMs: nat,
    error: Option<string>)

  datatype BackendCall = BackendCall(
    provider: Provider,
    url: string,
    verb: string,
    headers: seq<Header>,
    body: Bytes,
    timeoutMs: nat,
    streamIdleTimeoutMs: Option<nat>)

  datatype BackendReply = BackendReply(status: nat, headers: seq<Header>, body: Bytes, latencyMs: nat)

  datatype BackendError = Timeout | TooLarge | Upstream

  /** The gateway's surroundings: its token, what the backend answers to the request at each
      position of the input, and the lower-casing of host names. */
  datatype Env = Env(
    token: string,
    backend: (nat, BackendCall) -> Result<BackendReply, BackendError>,
    lower: string -> string)

  datatype DispatchError =
    | InvalidToken
    | DomainNotAllowed
    | UnknownProviderForHost
    | TimeoutAboveCap
    | Backend(error: BackendError)
    | PolicyReloadFailed
  {
    function WireString(): string {
      match this
      case InvalidToken => "InvalidToken"
      case DomainNotAllowed => "DomainNotAllowed"
      case UnknownProviderForHost => "UnknownProviderForHost"
      case TimeoutAboveCap => "TimeoutExceeded"
      case Backend(Timeout) => "TimeoutExceeded"
      case Backend(TooLarge) => "ResponseTooLarge"
      case Backend(Upstream) => "NetworkError"
      case PolicyReloadFailed => "PolicyReloadFailed"
    }
  }

  const STREAM_IDLE_TIMEOUT_DEFAULT_MS: nat := 30_000

  // ----- Hosts and the allowlist -----

  /** The text before the first occurrence of c, or all of it. */
  function Before(s: string, c: char): string {
    if s == [] || s[0] == c then [] else [s[0]] + Before(s[1..], c)
  }

  /** The text after the first "://". */
  function AfterScheme(url: string): Option<string> {
    if |url| < 3 then None
    else if url[..3] == "://" then Some(url[3..])
    else AfterScheme(url[1..])
  }

  /** extract_host, host_of_url and endpoint_host are the same six lines. */
  function HostOf(url: string): Option<string> {
    match AfterScheme(url)
    case None => None
    case Some(rest) =>
      var host := Before(Before(rest, '/'), ':');
      if host == "" then None else Some(host)
  }

  predicate EndsWith(s: string, t: string) {
    |t| <= |s| && s[|s| - |t|..] == t
  }

  predicate GlobMatch(pattern: string, value: string) {
    if pattern == "*" then true
    else if "*." <= pattern then value == pattern[2..] || EndsWith(value, "." + pattern[2..])
    else if EndsWith(pattern, ".*") then
      var prefix := pattern[..|pattern| - 2];
      value == prefix || prefix + "." <= value
    else pattern == value
  }

  predicate IsUrlAllowed(view: PolicyView, url: string) {
    match HostOf(url)
    case None => false
    case Some(host) => host in view.egressDomains || exists p :: p in view.egressPatterns && GlobMatch(p, host)
  }

  function Codes(s: string): seq<int> {
    seq(|s|, k requires 0 <= k < |s| => s[k] as int)
  }

  predicate ProviderMatches(p: Provider, host: string) {
    if p.kind == "http_sidecar" then
      p.sidecarEndpoint.Some? && HostOf(p.sidecarEndpoint.value).Some?
      && EqIgnoreAsciiCase(Codes(HostOf(p.sidecarEndpoint.value).value), Codes(host))
    else if p.kind == "Anthropic" then host == "anthropic.com" || EndsWith(host, ".anthropic.com")
    else if p.kind == "OpenAI" then host == "openai.com" || EndsWith(host, ".openai.com")
    else if p.kind == "Gemini" then host == "generativelanguage.googleapis.com"
    else if p.kind == "Bedrock" then "bedrock-runtime." <= host && EndsWith(host, ".amazonaws.com")
    else false
  }

  predicate Serves(view: PolicyView, id: string, host: string) {
    id in view.providers && ProviderMatches(view.providers[id], host)
  }

  /** The first declared provider that serves the host. */
  function ProviderForHost(view: PolicyView, order: seq<string>, host: string): (r: Option<Provider>)
    ensures r.Some? ==> exists k :: 0 <= k < |order| && Serves(view, order[k], host)
                                    && r.value == view.providers[order[k]]
                                    && forall l :: 0 <= l < k ==> !Serves(view, order[l], host)
    ensures r.None? ==> forall k :: 0 <= k < |order| ==> !Serves(view, order[k], host)
  {
    if order == [] then None
    else if Serves(view, order[0], host) then Some(view.providers[order[0]])
    else
      var r := ProviderForHost(view, order[1..], host);
      assert forall k :: 0 < k < |order| ==> order[k] == order[1..][k - 1];
      assert r.Some? ==> exists k :: 0 <= k < |order| && Serves(view, order[k], host)
                                     && r.value == view.providers[order[k]]
                                     && forall l :: 0 <= l < k ==> !Serves(view, order[l], host) by {
        if r.Some? {
          var k :| 0 <= k < |order[1..]| && Serves(view, order[1..][k], host)
                   && r.value == view.providers[order[1..][k]]
                   && forall l :: 0 <= l < k ==> !Serves(view, order[1..][l], host);
          assert order[k + 1] == order[1..][k];
        }
      }
      r
  }

  // ----- The pipeline -----

  function Cap(p: Provider, kind: FetchKind): nat {
    if kind.Inference? then p.inferenceTimeoutMs else p.dataFetchTimeoutMs
  }

  /** Everything checked before the backend is called: token, view, allowlist, provider, cap. */
  function Admit(env: Env, req: FetchRequest, view: Option<PolicyView>): Result<Provider, DispatchError> {
    if env.token != req.token then Err(InvalidToken)
    else if view.None? then Err(PolicyReloadFailed)
    else if !IsUrlAllowed(view.value, req.url) then Err(DomainNotAllowed)
    else
      match HostOf(req.url)
      case None => Err(DomainNotAllowed)
      case Some(host) =>
        match ProviderForHost(view.value, view.value.providerOrder, env.lower(host))
        case None => Err(UnknownProviderForHost)
        case Some(p) => if req.timeoutMs > Cap(p, req.kind) then Err(TimeoutAboveCap) else Ok(p)
  }

  function CallFor(p: Provider, req: FetchRequest): BackendCall {
    BackendCall(p, req.url, req.verb, req.headers, req.body, req.timeoutMs,
                if req.kind.DataFetch? then None
                else if p.streamIdleTimeoutMs.Some? then p.streamIdleTimeoutMs
                else Some(STREAM_IDLE_TIMEOUT_DEFAULT_MS))
  }

  function ErrorResponse(fetchId: nat, err: DispatchError): FetchResponse {
    FetchResponse(fetchId, None, [], None, 0, Some(err.WireString()))
  }

  /** handle_fetch_request for the request at position k of the input. */
  function HandleFetch(env: Env, k: nat, req: FetchRequest, view: Option<PolicyView>): FetchResponse {
    match Admit(env, req, view)
    case Err(e) => ErrorResponse(req.fetchId, e)
    case Ok(p) =>
      match env.backend(k, CallFor(p, req))
      case Err(e) => ErrorResponse(req.fetchId, Backend(e))
      case Ok(r) =>
        FetchResponse(req.fetchId, Some(r.status), r.headers, Some(r.body),
                      if r.latencyMs <= U32_MAX then r.latencyMs else U32_MAX, None)
  }

  /** Every gate is open, and i is the place of the first declared provider for the host: the
      right token, a loaded view that allows the host, a timeout within that provider's cap, and
      a backend that answers. */
  ghost predicate PassesGates(env: Env, k: nat, req: FetchRequest, view: Option<PolicyView>, i: nat) {
    && req.token == env.token && view.Some? && HostOf(req.url).Some?
    && var host, v := HostOf(req.url).value, view.value;
       && (host in v.egressDomains || exists p :: p in v.egressPatterns && GlobMatch(p, host))
       && i < |v.providerOrder| && Serves(v, v.providerOrder[i], env.lower(host))
       && (forall l :: 0 <= l < i ==> !Serves(v, v.providerOrder[l], env.lower(host)))
       && req.timeoutMs <= Cap(v.providers[v.providerOrder[i]], req.kind)
       && env.backend(k, CallFor(v.providers[v.providerOrder[i]], req)).Ok?
  }

  /** A status reaches the kernel exactly when every gate is open. */
  lemma SuccessIffEveryGate(env: Env, k: nat, req: FetchRequest, view: Option<PolicyView>)
    ensures HandleFetch(env, k, req, view).statusCode.Some? <==> exists i: nat :: PassesGates(env, k, req, view, i)
  {
    hide GlobMatch, ProviderMatches, HostOf, CallFor, ProviderForHost;
    if HandleFetch(env, k, req, view).statusCode.Some? {
      var host, v := HostOf(req.url).value, view.value;
      var p := ProviderForHost(v, v.providerOrder, env.lower(host)).value;
      var i :| 0 <= i < |v.providerOrder| && Serves(v, v.providerOrder[i], env.lower(host))
               && p == v.providers[v.providerOrder[i]]
               && forall l :: 0 <= l < i ==> !Serves(v, v.providerOrder[l], env.lower(host));
      assert PassesGates(env, k, req, view, i);
    }
    if i: nat :| PassesGates(env, k, req, view, i) {
      FirstProvider(view.value, env.lower(HostOf(req.url).value), i);
    }
  }

  lemma FirstProvider(v: PolicyView, host: string, i: nat)
    requires i < |v.providerOrder| && Serves(v, v.providerOrder[i], host)
    requires forall l :: 0 <= l < i ==> !Serves(v, v.providerOrder[l], host)
    ensures ProviderForHost(v, v.providerOrder, host) == Some(v.providers[v.providerOrder[i]])
  {
    hide Serves, ProviderForHost;
  }

  /** A refused request never depends on the backend. */
  lemma RefusalIgnoresBackend(env: Env, other: Env, k: nat, req: FetchRequest, view: Option<PolicyView>)
    requires other.token == env.token && other.lower == env.lower
    requires Admit(env, req, view).Err?
    ensures HandleFetch(other, k, req, view) == HandleFetch(env, k, req, view)
    ensures HandleFetch(env, k, req, view).error == Some(Admit(env, req, view).error.WireString())
  {
    hide GlobMatch, ProviderMatches, HostOf, ProviderForHost, IsUrlAllowed;
  }

  /** An error without payload or a full answer, with the latency in 32 bits. */
  predicate WellShaped(r: FetchResponse) {
    && r.latencyMs <= U32_MAX
    && (r.error.None? <==> r.statusCode.Some?) && (r.error.None? <==> r.body.Some?)
    && (r.error.Some? ==> r.headers == [] && r.latencyMs == 0)
  }

  lemma AnswerShape(env: Env, k: nat, req: FetchRequest, view: Option<PolicyView>)
    ensures var r := HandleFetch(env, k, req, view);
            r.fetchId == req.fetchId && WellShaped(r)
  {
    hide Admit, CallFor;
  }

  // ----- What hosts and patterns mean -----

  lemma {:induction false} BeforeShape(s: string, c: char)
    ensures c !in Before(s, c) && Before(s, c) <= s
    ensures |Before(s, c)| < |s| ==> s[|Before(s, c)|] == c
    decreases |s|
  {
    if s == [] || s[0] == c {
    } else {
      BeforeShape(s[1..], c);
    }
  }

  lemma {:induction false} AfterSchemeShape(url: string) returns (scheme: string)
    requires AfterScheme(url).Some?
    ensures url == scheme + "://" + AfterScheme(url).value
    ensures forall k :: 0 <= k < |scheme| ==> !("://" <= url[k..])
    decreases |url|
  {
    if url[..3] == "://" {
      scheme := "";
    } else {
      var rest := AfterSchemeShape(url[1..]);
      scheme := [url[0]] + rest;
      assert url == [url[0]] + url[1..];
      forall k | 0 <= k < |scheme| ensures !("://" <= url[k..]) {
        assert k > 0 ==> url[k..] == url[1..][k - 1..];
      }
    }
  }

  /** A host is the non-empty text between the first "://" and the next slash or colon. */
  lemma HostShape(url: string) returns (scheme: string, after: string)
    requires HostOf(url).Some?
    ensures var h := HostOf(url).value;
            && url == scheme + "://" + (h + after) && h != "" && '/' !in h && ':' !in h
            && (after == "" || after[0] == '/' || after[0] == ':')
            && forall k :: 0 <= k < |scheme| ==> !("://" <= url[k..])
  {
    hide Before;
    var rest := AfterScheme(url).value;
    scheme := AfterSchemeShape(url);
    var upToSlash := Before(rest, '/');
    var h := Before(upToSlash, ':');
    BeforeShape(rest, '/');
    BeforeShape(upToSlash, ':');
    assert h <= rest && forall c :: c in h ==> c in upToSlash;
    after := rest[|h|..];
    assert rest == h + after;
  }

  /** A leading "*." matches the domain itself and every name below it. */
  lemma SuffixPatternMeaning(domain: string, value: string)
    ensures GlobMatch("*." + domain, value) <==> value == domain || exists sub :: value == sub + "." + domain
  {
    var p, dotted := "*." + domain, "." + domain;
    assert p[2..] == domain && p != "*" && "*." <= p;
    if EndsWith(value, dotted) {
      var sub := value[..|value| - |dotted|];
      assert value == sub + dotted == sub + "." + domain;
    }
    forall sub | value == sub + "." + domain ensures EndsWith(value, dotted) {
      assert value == sub + dotted;
      assert value[|value| - |dotted|..] == dotted;
    }
  }
}
