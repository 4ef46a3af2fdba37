/**
  What the gateway answers, spelled out for the kernel that asks: the gates, the backend call
  field by field, and every field of the response.
 */
module DispatchAnswers {
  import opened Basics
  import opened Wrappers
  import opened Dispatch

  // ----- Gates -----

  /** The host of the request may be reached under the view. */
  ghost predicate HostAllowed(req: FetchRequest, v: PolicyView) {
    HostOf(req.url).Some?
    && (HostOf(req.url).value in v.egressDomains
        || exists p :: p in v.egressPatterns && GlobMatch(p, HostOf(req.url).value))
  }

  /** The provider declared at place i serves the host, and none before it does. */
  ghost predicate FirstServing(env: Env, req: FetchRequest, v: PolicyView, i: nat) {
    && HostOf(req.url).Some? && i < |v.providerOrder|
    && Serves(v, v.providerOrder[i], env.lower(HostOf(req.url).value))
    && forall l :: 0 <= l < i ==> !Serves(v, v.providerOrder[l], env.lower(HostOf(req.url).value))
  }

  ghost predicate NoneServing(env: Env, req: FetchRequest, v: PolicyView) {
    && HostOf(req.url).Some?
    && forall l :: 0 <= l < |v.providerOrder| ==> !Serves(v, v.providerOrder[l], env.lower(HostOf(req.url).value))
  }

  /** What the provider allows for this kind of fetch. */
  function Allowance(p: Provider, kind: FetchKind): nat {
    match kind case Inference => p.inferenceTimeoutMs case DataFetch => p.dataFetchTimeoutMs
  }

  function Refusal(req: FetchRequest, error: string): FetchResponse {
    FetchResponse(req.fetchId, None, [], None, 0, Some(error))
  }

  /** The response to a request whose gates are all open to provider p: what the backend answers to
      exactly this call. */
  ghost predicate IsForwarded(env: Env, k: nat, req: FetchRequest, p: Provider, r: FetchResponse) {
    var idle :=
      if req.kind == DataFetch then None
      else if p.streamIdleTimeoutMs.Some? then p.streamIdleTimeoutMs
      else Some(30_000);
    match env.backend(k, BackendCall(p, req.url, req.verb, req.headers, req.body, req.timeoutMs, idle))
    case Ok(b) =>
      && r.fetchId == req.fetchId && r.error == None
      && r.statusCode == Some(b.status) && r.headers == b.headers && r.body == Some(b.body)
      && r.latencyMs == (if b.latencyMs < 0x1_0000_0000 then b.latencyMs else 0xFFFF_FFFF)
    case Err(Timeout) => r == Refusal(req, "TimeoutExceeded")
    case Err(TooLarge) => r == Refusal(req, "ResponseTooLarge")
    case Err(Upstream) => r == Refusal(req, "NetworkError")
  }

  /** The one response, by the first gate that is closed. */
  ghost predicate IsResponse(env: Env, k: nat, req: FetchRequest, view: Option<PolicyView>, r: FetchResponse) {
    && (req.token != env.token ==> r == Refusal(req, "InvalidToken"))
    && (req.token == env.token && view.None? ==> r == Refusal(req, "PolicyReloadFailed"))
    && (req.token == env.token && view.Some? ==>
          && (!HostAllowed(req, view.value) ==> r == Refusal(req, "DomainNotAllowed"))
          && (HostAllowed(req, view.value) && NoneServing(env, req, view.value) ==>
                r == Refusal(req, "UnknownProviderForHost"))
          && forall i: nat :: HostAllowed(req, view.value) && FirstServing(env, req, view.value, i) ==>
               var p := view.value.providers[view.value.providerOrder[i]];
               if req.timeoutMs > Allowance(p, req.kind) then r == Refusal(req, "TimeoutExceeded")
               else IsForwarded(env, k, req, p, r))
  }

  lemma ForwardedIs(env: Env, k: nat, req: FetchRequest, p: Provider, view: Option<PolicyView>)
    requires Admit(env, req, view) == Ok(p)
    ensures IsForwarded(env, k, req, p, HandleFetch(env, k, req, view))
  {
    hide Admit;
  }

  lemma FirstServingIs(env: Env, req: FetchRequest, v: PolicyView, i: nat)
    requires FirstServing(env, req, v, i)
    ensures ProviderForHost(v, v.providerOrder, env.lower(HostOf(req.url).value)) ==
            Some(v.providers[v.providerOrder[i]])
  {
    hide Serves, HostOf;
    FirstProvider(v, env.lower(HostOf(req.url).value), i);
  }

  /** The gateway's answer is that response, for every request, view and backend. */
  lemma AnswerIs(env: Env, k: nat, req: FetchRequest, view: Option<PolicyView>)
    ensures IsResponse(env, k, req, view, HandleFetch(env, k, req, view))
  {
    hide ProviderMatches, HostOf, GlobMatch, ProviderForHost, CallFor, IsForwarded;
    if req.token == env.token && view.Some? && HostAllowed(req, view.value) {
      var v := view.value;
      forall i: nat | FirstServing(env, req, v, i)
        ensures var p := v.providers[v.providerOrder[i]];
                var r := HandleFetch(env, k, req, view);
                if req.timeoutMs > Allowance(p, req.kind) then r == Refusal(req, "TimeoutExceeded")
                else IsForwarded(env, k, req, p, r)
      {
        FirstServingIs(env, req, v, i);
        var p := v.providers[v.providerOrder[i]];
        if req.timeoutMs <= Allowance(p, req.kind) {
          ForwardedIs(env, k, req, p, view);
        }
      }
    }
  }

  /** There is only one such response. */
  lemma ResponseIsUnique(env: Env, k: nat, req: FetchRequest, view: Option<PolicyView>, r: FetchResponse)
    requires IsResponse(env, k, req, view, r)
    ensures r == HandleFetch(env, k, req, view)
  {
    hide ProviderMatches, HostOf, GlobMatch, ProviderForHost, HandleFetch;
    AnswerIs(env, k, req, view);
    if req.token == env.token && view.Some? && HostAllowed(req, view.value) && !NoneServing(env, req, view.value) {
      var v, host := view.value, env.lower(HostOf(req.url).value);
      var found := ProviderForHost(v, v.providerOrder, host);
      var i :| 0 <= i < |v.providerOrder| && Serves(v, v.providerOrder[i], host)
               && found.value == v.providers[v.providerOrder[i]]
               && forall l :: 0 <= l < i ==> !Serves(v, v.providerOrder[l], host);
      assert FirstServing(env, req, v, i);
    }
  }

  // ----- What the gates read -----

  ghost predicate Below(host: string, domain: string) {
    host == domain || exists sub :: host == sub + "." + domain
  }

  lemma EndsWithIs(s: string, t: string)
    ensures EndsWith(s, t) <==> exists u :: s == u + t
  {
    if EndsWith(s, t) {
      assert s == s[..|s| - |t|] + t;
    }
    if u :| s == u + t {
      assert s[|s| - |t|..] == t;
    }
  }

  lemma StartsWithIs(s: string, t: string)
    ensures t <= s <==> exists u :: s == t + u
  {
    if t <= s {
      assert s == t + s[|t|..];
    }
  }

  lemma BelowIs(host: string, domain: string)
    ensures Below(host, domain) <==> host == domain || EndsWith(host, "." + domain)
  {
    EndsWithIs(host, "." + domain);
    if EndsWith(host, "." + domain) {
      var u :| host == u + ("." + domain);
      Assoc(u, ".", domain);
    }
    if sub :| host == sub + "." + domain {
      Assoc(sub, ".", domain);
    }
  }

  /** Which hosts each kind of provider serves. */
  lemma ProviderHosts(p: Provider, host: string)
    ensures p.kind == "Anthropic" ==> (ProviderMatches(p, host) <==> Below(host, "anthropic.com"))
    ensures p.kind == "OpenAI" ==> (ProviderMatches(p, host) <==> Below(host, "openai.com"))
    ensures p.kind == "Gemini" ==> (ProviderMatches(p, host) <==> host == "generativelanguage.googleapis.com")
    ensures p.kind == "Bedrock" ==>
              (ProviderMatches(p, host) <==>
               (exists u :: host == "bedrock-runtime." + u) && exists u :: host == u + ".amazonaws.com")
    ensures p.kind == "http_sidecar" ==>
              (ProviderMatches(p, host) <==>
               && p.sidecarEndpoint.Some? && HostOf(p.sidecarEndpoint.value).Some?
               && SameLetters(HostOf(p.sidecarEndpoint.value).value, host))
    ensures p.kind !in ["Anthropic", "OpenAI", "Gemini", "Bedrock", "http_sidecar"] ==> !ProviderMatches(p, host)
  {
    hide EndsWith, HostOf, Below;
    BelowIs(host, "anthropic.com");
    BelowIs(host, "openai.com");
    assert "." + "anthropic.com" == ".anthropic.com" && "." + "openai.com" == ".openai.com";
    StartsWithIs(host, "bedrock-runtime.");
    EndsWithIs(host, ".amazonaws.com");
    if p.kind == "http_sidecar" && p.sidecarEndpoint.Some? && HostOf(p.sidecarEndpoint.value).Some? {
      SameLettersIs(HostOf(p.sidecarEndpoint.value).value, host);
    }
  }

  /** Equal up to the case of the letters A to Z. */
  ghost predicate SameLetters(s: string, t: string) {
    |s| == |t| && forall k :: 0 <= k < |s| ==>
      || s[k] == t[k]
      || ('A' <= s[k] <= 'Z' && t[k] as int == s[k] as int + 32)
      || ('A' <= t[k] <= 'Z' && s[k] as int == t[k] as int + 32)
  }

  lemma SameLettersIs(s: string, t: string)
    ensures EqIgnoreAsciiCase(Codes(s), Codes(t)) <==> SameLetters(s, t)
  {
    if |s| == |t| {
      assert forall k :: 0 <= k < |s| ==> Codes(s)[k] == s[k] as int && Codes(t)[k] == t[k] as int;
    }
  }

  /** A trailing ".*" matches the name itself and every name that goes on after a dot. */
  lemma PrefixPatternMeaning(name: string, value: string)
    requires name == "" || name[0] != '*'
    ensures GlobMatch(name + ".*", value) <==> value == name || exists rest :: value == name + "." + rest
  {
    var p := name + ".*";
    assert p[|p| - 2..] == ".*" && p[..|p| - 2] == name;
    assert p[0] != '*' && p != "*";
    StartsWithIs(value, name + ".");
  }

  lemma {:induction false} BeforeFinds(u: string, c: char, v: string)
    requires c !in u && (v == [] || v[0] == c)
    ensures Before(u + v, c) == u
    decreases |u|
  {
    if u == [] {
      assert u + v == v;
    } else {
      assert (u + v)[1..] == u[1..] + v && u[0] in u;
      BeforeFinds(u[1..], c, v);
      assert u == [u[0]] + u[1..];
    }
  }

  lemma {:induction false} SchemeFinds(scheme: string, rest: string)
    requires var url := scheme + "://" + rest;
             forall k :: 0 <= k < |scheme| ==> !("://" <= url[k..])
    ensures AfterScheme(scheme + "://" + rest) == Some(rest)
    decreases |scheme|
  {
    var url := scheme + "://" + rest;
    if scheme == [] {
      assert url == "://" + rest && url[..3] == "://" && url[3..] == rest;
    } else {
      var s := scheme[1..];
      assert url[1..] == s + "://" + rest;
      assert url[0..] == url && !("://" <= url[0..]);
      forall k | 0 <= k < |s| ensures !("://" <= (s + "://" + rest)[k..]) {
        assert url[1..][k..] == url[k + 1..];
      }
      SchemeFinds(s, rest);
    }
  }

  /** The converse of HostShape: whatever stands there is the host. */
  lemma HostFound(scheme: string, host: string, after: string)
    requires host != "" && '/' !in host && ':' !in host && (after == "" || after[0] == '/' || after[0] == ':')
    requires var url := scheme + "://" + (host + after);
             forall k :: 0 <= k < |scheme| ==> !("://" <= url[k..])
    ensures HostOf(scheme + "://" + (host + after)) == Some(host)
  {
    hide Before, AfterScheme;
    SchemeFinds(scheme, host + after);
    var upTo := Before(after, '/');
    BeforeShape(after, '/');
    assert Before(host + after, '/') == host + upTo by { BeforeConcat(host, '/', after); }
    assert upTo == "" || upTo[0] == ':';
    BeforeFinds(host, ':', upTo);
  }

  lemma {:induction false} BeforeConcat(u: string, c: char, v: string)
    requires c !in u
    ensures Before(u + v, c) == u + Before(v, c)
    decreases |u|
  {
    if u == [] {
      assert u + v == v;
    } else {
      assert (u + v)[1..] == u[1..] + v && u[0] in u;
      BeforeConcat(u[1..], c, v);
    }
  }
}
