/**
 * The outbound request the handler prepares for the upstream API: which
 * inbound headers are forwarded, which three are forced, whether the body
 * goes along, and the 401 answer when no credential can be found.
 */
module Outbound {
  import opened Text
  import opened Headers
  import opened UserAgent
  import opened Credentials

  type Body = seq<bv8>

  datatype InboundRequest = InboundRequest(verb: string, headers: HeaderMap, body: Body)

  /** `redirect: 'manual'` is the only redirect mode the handler uses. */
  datatype RedirectMode = Manual

  datatype RequestInit = RequestInit(
    verb: string, headers: HeaderMap, redirect: RedirectMode, body: Option<Body>)

  /** What the handler does with one request: answer it itself, or dispatch it. */
  datatype Outcome =
    | Reject(status: int, error: string)
    | Dispatch(init: RequestInit)

  const MISSING_TOKEN_MESSAGE: string := "Missing Anthropic API token."

  /** The three keys the handler writes after copying the inbound headers. */
  predicate IsOverridden(key: string)
  {
    key == "user-agent" || key == "x-api-key" || key == "accept-encoding"
  }

  /** An inbound header, by its lower-cased name, that is never copied. */
  predicate IsDropped(lowerKey: string)
  {
    || lowerKey == "host" || lowerKey == "connection" || lowerKey == "content-length"
    || lowerKey == "authorization" || lowerKey == "x-api-key"
    || StartsWith(lowerKey, "x-forwarded-") || lowerKey == "via"
    || lowerKey == "user-agent"
  }

  /** An inbound header that the loop copies verbatim. */
  predicate IsCopied(inbound: HeaderMap, key: string)
  {
    key in inbound && inbound[key] != Undefined && !IsDropped(LowerStr(key))
  }

  /**
   * A lower-cased name the outbound request may carry: not `host`,
   * `connection`, `content-length`, `authorization` or `via`, and no
   * `x-forwarded-` name.
   */
  predicate Forwardable(lowerKey: string)
  {
    && lowerKey != "host" && lowerKey != "connection" && lowerKey != "content-length"
    && lowerKey != "authorization" && lowerKey != "via"
    && !StartsWith(lowerKey, "x-forwarded-")
  }

  /**
   * The server never hands over a repeated `user-agent` as an array
   * (`toLowerCase` on an array would throw).
   */
  predicate UserAgentIsScalar(h: HeaderMap)
  {
    !Lookup(h, "user-agent").Many?
  }

  /** `req.headers['user-agent']`, `None` for `undefined`. */
  function InboundUserAgent(h: HeaderMap): Option<string>
    requires UserAgentIsScalar(h)
  {
    match Lookup(h, "user-agent")
    case Str(ua) => Some(ua)
    case _ => None
  }

  /**
   * The outbound headers: the copied inbound headers, then `user-agent`,
   * `x-api-key` and `accept-encoding` written over them. No forbidden header
   * survives, every copied header keeps its value, and the three written
   * keys hold the sanitised user-agent, the token and `identity`.
   */
  function ForwardHeaders(inbound: HeaderMap, token: string): (out: HeaderMap)
    requires UserAgentIsScalar(inbound)
    ensures forall key :: key in out <==> IsOverridden(key) || IsCopied(inbound, key)
    ensures forall key | key in out && !IsOverridden(key) :: key in inbound && out[key] == inbound[key]
    ensures "user-agent" in out && out["user-agent"] == Str(SanitizeUserAgent(InboundUserAgent(inbound)))
    ensures "x-api-key" in out && out["x-api-key"] == Str(token)
    ensures "accept-encoding" in out && out["accept-encoding"] == Str("identity")
    ensures forall key | key in out :: Forwardable(LowerStr(key))
  {
    OverriddenKeysForwardable();
    CopiedHeaders(inbound)["user-agent" := Str(SanitizeUserAgent(InboundUserAgent(inbound)))]
                          ["x-api-key" := Str(token)]
                          ["accept-encoding" := Str("identity")]
  }

  /** The inbound headers the loop copies, each under its own name and with its own value. */
  function CopiedHeaders(inbound: HeaderMap): (copied: HeaderMap)
    ensures forall key :: key in copied <==> IsCopied(inbound, key)
    ensures forall key | key in copied :: key in inbound && copied[key] == inbound[key] && Forwardable(LowerStr(key))
  {
    map key | key in inbound && IsCopied(inbound, key) :: inbound[key]
  }

  /**
   * The three written keys are forwardable names, although `user-agent`
   * and `x-api-key` are on the list of inbound headers that are not copied.
   */
  lemma OverriddenKeysForwardable()
    ensures forall key | IsOverridden(key) :: Forwardable(LowerStr(key)) && IsDropped(LowerStr(key)) == (key != "accept-encoding")
  {
    assert LowerStr("user-agent") == "user-agent";
    assert LowerStr("x-api-key") == "x-api-key";
    assert LowerStr("accept-encoding") == "accept-encoding";
    assert "accept-encoding"[..12] != "x-forwarded-" by {
      assert "accept-encoding"[0] != "x-forwarded-"[0];
    }
  }

  /**
   * Running the transformation on its own output, with the same token,
   * gives the same headers back.
   */
  lemma ForwardHeadersIdempotent(inbound: HeaderMap, token: string)
    requires UserAgentIsScalar(inbound)
    ensures UserAgentIsScalar(ForwardHeaders(inbound, token))
    ensures ForwardHeaders(ForwardHeaders(inbound, token), token) == ForwardHeaders(inbound, token)
  {
    var once := ForwardHeaders(inbound, token);
    ForwardAgainSameKeys(inbound, token);
    ForwardAgainSameValues(inbound, token);
    var twice := ForwardHeaders(once, token);
    assert twice == once;
  }

  /** Outside the three written keys, the outbound headers copy exactly what the inbound ones did. */
  lemma ForwardAgainSameKeys(inbound: HeaderMap, token: string)
    requires UserAgentIsScalar(inbound)
    ensures UserAgentIsScalar(ForwardHeaders(inbound, token))
    ensures ForwardHeaders(ForwardHeaders(inbound, token), token).Keys == ForwardHeaders(inbound, token).Keys
  {
    var once := ForwardHeaders(inbound, token);
    forall key | !IsOverridden(key) ensures IsCopied(once, key) <==> IsCopied(inbound, key) {
      if IsCopied(inbound, key) {
        assert key in once && once[key] == inbound[key];
      }
    }
  }

  lemma ForwardAgainSameValues(inbound: HeaderMap, token: string)
    requires UserAgentIsScalar(inbound)
    ensures UserAgentIsScalar(ForwardHeaders(inbound, token))
    ensures var once := ForwardHeaders(inbound, token);
            forall key | key in ForwardHeaders(once, token) :: key in once && ForwardHeaders(once, token)[key] == once[key]
  {
    var once := ForwardHeaders(inbound, token);
    assert InboundUserAgent(once) == Some(SanitizeUserAgent(InboundUserAgent(inbound)));
    SanitizeIdempotent(InboundUserAgent(inbound));
  }

  /**
   * The header loop and the three writes after it. The loop visits the
   * inbound entries in some order; as names are distinct, the order does
   * not change the result.
   */
  method BuildForwardHeaders(inbound: HeaderMap, token: string) returns (out: HeaderMap)
    requires UserAgentIsScalar(inbound)
    ensures out == ForwardHeaders(inbound, token)
  {
    out := map[];
    var pending := inbound.Keys;
    while pending != {}
      invariant pending <= inbound.Keys
      invariant forall key :: key in out <==> key in inbound.Keys - pending && IsCopied(inbound, key)
      invariant forall key | key in out :: out[key] == inbound[key]
      decreases pending
    {
      var key :| key in pending;
      pending := pending - {key};
      var value := inbound[key];
      if value == Undefined {
        continue;
      }
      var lowerKey := LowerStr(key);
      if lowerKey == "host" || lowerKey == "connection" || lowerKey == "content-length" {
        assert IsDropped(lowerKey);
        continue;
      }
      if lowerKey == "authorization" || lowerKey == "x-api-key" ||
         StartsWith(lowerKey, "x-forwarded-") || lowerKey == "via" {
        assert IsDropped(lowerKey);
        continue;
      }
      if lowerKey == "user-agent" {
        continue;
      }
      assert !IsDropped(lowerKey);
      out := out[key := value];
    }
    assert out == CopiedHeaders(inbound);
    out := out["user-agent" := Str(SanitizeUserAgent(InboundUserAgent(inbound)))];
    out := out["x-api-key" := Str(token)];
    out := out["accept-encoding" := Str("identity")];
  }

  /** `!['GET', 'HEAD'].includes(method.toUpperCase())` */
  predicate AttachesBody(verb: string)
  {
    var upper := UpperStr(verb);
    upper != "GET" && upper != "HEAD"
  }

  /**
   * A body goes upstream exactly when the method is neither GET nor HEAD,
   * in any letter case.
   */
  lemma AttachesBodyIff(verb: string)
    ensures AttachesBody(verb) <==>
              !EqualsIgnoringCase(verb, "GET") && !EqualsIgnoringCase(verb, "HEAD")
  {
    UpperMatchesIgnoringCase(verb, "GET");
    UpperMatchesIgnoringCase(verb, "HEAD");
  }

  /**
   * The handler from the token resolution to the prepared fetch options:
   * without a token it answers 401 and prepares nothing; with one it
   * prepares the method, the forwarded headers, manual redirects and the
   * body for every method but GET and HEAD.
   */
  method HandleRequest(req: InboundRequest, defaultToken: Option<string>) returns (o: Outcome)
    requires UserAgentIsScalar(req.headers)
    ensures o.Reject? <==> ResolvedToken(req.headers, defaultToken).None?
    ensures o.Reject? ==> o == Reject(401, MISSING_TOKEN_MESSAGE)
    ensures o.Dispatch? ==>
              && o.init.verb == req.verb
              && o.init.headers == ForwardHeaders(req.headers, ResolvedToken(req.headers, defaultToken).value)
              && o.init.redirect == Manual
              && o.init.body == (if AttachesBody(req.verb) then Some(req.body) else None)
    ensures o.Dispatch? ==>
              o.init.headers["x-api-key"].Str? && o.init.headers["x-api-key"].s != "" &&
              o.init.headers["accept-encoding"] == Str("identity")
  {
    var authToken := ResolveToken(req.headers, defaultToken);
    if authToken.None? {
      return Reject(401, MISSING_TOKEN_MESSAGE);
    }
    var forwardHeaders := BuildForwardHeaders(req.headers, authToken.value);
    var body: Option<Body> := None;
    if AttachesBody(req.verb) {
      body := Some(req.body);
    }
    o := Dispatch(RequestInit(req.verb, forwardHeaders, Manual, body));
  }
}
