/**
 * Credential resolution: the token sent upstream as `x-api-key` is the first
 * non-empty of the request's own `x-api-key` (trimmed), the token of a
 * `Bearer` authorization (trimmed) and the configured default token.
 */
module Credentials {
  import opened Text
  import opened Headers

  function Min(a: nat, b: nat): nat
  {
    if a <= b then a else b
  }

  /**
   * One way `/^Bearer\s+(.+)$/i` can match `s`: the first six characters
   * spell `bearer` in any case, `\s+` takes the next `k` characters, all of
   * them whitespace, and `(.+)$` takes the rest, which is not empty and holds
   * no line terminator.
   */
  predicate BearerMatchAt(s: string, k: nat)
  {
    && 6 + k < |s|
    && 1 <= k
    && EqualsIgnoringCase(s[..6], "bearer")
    && AllWs(s[6..6 + k])
    && NoLineTerminator(s[6 + k..])
  }

  /**
   * The capture group of `/^Bearer\s+(.+)$/i` on `s`, or `None` when the
   * expression does not match. The greedy `\s+` takes as much whitespace as
   * it can while leaving at least one character for `(.+)`.
   */
  function BearerCapture(s: string): Option<string>
  {
    if |s| < 8 || LowerStr(s[..6]) != "bearer" then None
    else
      var k := Min(WsRun(s, 6), |s| - 7);
      if k >= 1 && NoLineTerminator(s[6 + k..]) then Some(s[6 + k..]) else None
  }

  /**
   * Any match leaves `\s+` no more whitespace than the greedy split does,
   * and the rest after the greedy split is then free of line terminators.
   */
  lemma MatchWithinGreedy(s: string, k': nat)
    ensures BearerMatchAt(s, k') ==>
              && |s| >= 8 && LowerStr(s[..6]) == "bearer"
              && 1 <= k' <= Min(WsRun(s, 6), |s| - 7)
              && NoLineTerminator(s[6 + Min(WsRun(s, 6), |s| - 7)..])
  {
    if BearerMatchAt(s, k') {
      LowerMatchesIgnoringCase(s[..6], "bearer");
      forall j | 6 <= j < 6 + k' ensures IsWs(s[j]) {
        assert s[6..6 + k'][j - 6] == s[j];
      }
      var k := Min(WsRun(s, 6), |s| - 7);
      NoLineTerminatorSuffix(s, 6 + k', 6 + k);
    }
  }

  /**
   * `BearerCapture` agrees with the regular expression: it yields a capture
   * exactly when some split of `s` matches, and the capture is the one that
   * leaves the most whitespace to `\s+`, as a backtracking engine finds first.
   */
  lemma BearerCaptureIsGreedyMatch(s: string)
    ensures BearerCapture(s).Some? <==> exists k: nat :: BearerMatchAt(s, k)
    ensures BearerCapture(s).Some? ==>
              exists k: nat :: BearerMatchAt(s, k) && BearerCapture(s).value == s[6 + k..] &&
                forall k': nat :: k < k' ==> !BearerMatchAt(s, k')
  {
    forall k': nat
      ensures BearerMatchAt(s, k') ==> BearerCapture(s).Some? && k' <= Min(WsRun(s, 6), |s| - 7)
    {
      MatchWithinGreedy(s, k');
    }
    if BearerCapture(s).Some? {
      LowerMatchesIgnoringCase(s[..6], "bearer");
      var w := WsRun(s, 6);
      var k := Min(w, |s| - 7);
      AllWsShorter(s, 6, w, k);
      assert BearerMatchAt(s, k);
    }
  }

  /**
   * Trimming the capture gives what trimming everything after `Bearer`
   * gives: the whitespace `\s+` consumed would have been trimmed anyway.
   */
  lemma BearerTokenIsTrimmedRest(s: string)
    requires BearerCapture(s).Some?
    ensures |s| >= 8 && Trim(BearerCapture(s).value) == Trim(s[6..])
  {
    var w := WsRun(s, 6);
    var k := Min(w, |s| - 7);
    var c := BearerCapture(s).value;
    assert s[6..] == s[6..6 + k] + c;
    AllWsShorter(s, 6, w, k);
    TrimStartSkipsWs(s[6..6 + k], c);
  }

  /** The trimmed `x-api-key` value, or "" when there is none. */
  function ApiKeyCandidate(h: HeaderMap): string
  {
    match FirstHeaderValue(Lookup(h, "x-api-key"))
    case Some(key) => Trim(key)
    case None => ""
  }

  /** The trimmed token of a `Bearer` authorization, or "" when there is none. */
  function BearerCandidate(h: HeaderMap): string
  {
    match FirstHeaderValue(Lookup(h, "authorization"))
    case None => ""
    case Some(auth) =>
      match BearerCapture(auth)
      case Some(token) => Trim(token)
      case None => ""
  }

  /** The configured default token; an unset one counts as "". */
  function DefaultCandidate(defaultToken: Option<string>): string
  {
    match defaultToken
    case Some(t) => t
    case None => ""
  }

  /** `FirstTruthy` on three candidates, unfolded. */
  lemma FirstOfThree(a: string, b: string, c: string)
    ensures FirstTruthy([a, b, c]) ==
              if a != "" then Some(a) else if b != "" then Some(b) else if c != "" then Some(c) else None
  {
    assert [a, b, c][1..] == [b, c];
    assert [b, c][1..] == [c];
    assert [c][1..] == [];
    assert FirstTruthy([c]) == if c != "" then Some(c) else FirstTruthy([]);
    assert FirstTruthy([b, c]) == if b != "" then Some(b) else FirstTruthy([c]);
    assert FirstTruthy([a, b, c]) == if a != "" then Some(a) else FirstTruthy([b, c]);
  }

  /**
   * The resolution order: the first non-empty candidate wins, and `None`
   * means no credential at all.
   */
  function ResolvedToken(h: HeaderMap, defaultToken: Option<string>): Option<string>
  {
    FirstTruthy([ApiKeyCandidate(h), BearerCandidate(h), DefaultCandidate(defaultToken)])
  }

  /**
   * The handler's step-by-step assignment of `authToken`: the key header
   * first, then a bearer authorization if that left it falsy, then the
   * configured default if still falsy; `None` when the result is falsy.
   */
  method ResolveToken(h: HeaderMap, defaultToken: Option<string>) returns (token: Option<string>)
    ensures token == ResolvedToken(h, defaultToken)
    ensures token.Some? ==> token.value != ""
  {
    var providedApiKey := FirstHeaderValue(Lookup(h, "x-api-key"));
    var providedAuthorization := FirstHeaderValue(Lookup(h, "authorization"));

    FirstOfThree(ApiKeyCandidate(h), BearerCandidate(h), DefaultCandidate(defaultToken));
    ghost var bearer := BearerCandidate(h);
    assert providedAuthorization.None? ==> bearer == "";

    var authToken: Option<string> := None;
    if providedApiKey.Some? {
      authToken := Some(Trim(providedApiKey.value));
    }

    if (authToken.None? || authToken.value == "") && providedAuthorization.Some? {
      var m := BearerCapture(providedAuthorization.value);
      if m.Some? {
        authToken := Some(Trim(m.value));
      }
      assert bearer == (if m.Some? then Trim(m.value) else "");
    }

    if authToken.None? || authToken.value == "" {
      authToken := defaultToken;
    }

    if authToken.None? || authToken.value == "" {
      token := None;
    } else {
      token := authToken;
    }
  }

  /** A non-blank `x-api-key` wins, whatever `authorization` says. */
  lemma ApiKeyWins(h: HeaderMap, defaultToken: Option<string>, key: string)
    requires FirstHeaderValue(Lookup(h, "x-api-key")) == Some(key)
    requires Trim(key) != ""
    ensures ResolvedToken(h, defaultToken) == Some(Trim(key))
  {
    FirstOfThree(ApiKeyCandidate(h), BearerCandidate(h), DefaultCandidate(defaultToken));
  }

  /**
   * Without a usable key, a `Bearer` authorization supplies the token:
   * everything after the word `Bearer`, trimmed.
   */
  lemma BearerIsSecond(h: HeaderMap, defaultToken: Option<string>, auth: string)
    requires ApiKeyCandidate(h) == ""
    requires FirstHeaderValue(Lookup(h, "authorization")) == Some(auth)
    requires BearerCapture(auth).Some? && Trim(auth[6..]) != ""
    ensures ResolvedToken(h, defaultToken) == Some(Trim(auth[6..]))
  {
    FirstOfThree(ApiKeyCandidate(h), BearerCandidate(h), DefaultCandidate(defaultToken));
    BearerTokenIsTrimmedRest(auth);
  }

  /**
   * With neither a usable key nor a usable bearer token, the configured
   * default decides: it is the token when it is non-empty, and otherwise
   * there is none.
   */
  lemma DefaultIsLast(h: HeaderMap, defaultToken: Option<string>)
    requires ApiKeyCandidate(h) == "" && BearerCandidate(h) == ""
    ensures defaultToken.Some? && defaultToken.value != "" ==> ResolvedToken(h, defaultToken) == defaultToken
    ensures defaultToken.None? || defaultToken.value == "" ==> ResolvedToken(h, defaultToken).None?
  {
    FirstOfThree(ApiKeyCandidate(h), BearerCandidate(h), DefaultCandidate(defaultToken));
  }

  /** An authorization without the `Bearer` form is ignored. */
  lemma MalformedAuthorizationIgnored(h: HeaderMap, defaultToken: Option<string>, auth: string)
    requires ApiKeyCandidate(h) == ""
    requires FirstHeaderValue(Lookup(h, "authorization")) == Some(auth)
    requires !exists k: nat :: BearerMatchAt(auth, k)
    ensures ResolvedToken(h, defaultToken) == FirstTruthy([DefaultCandidate(defaultToken)])
  {
    FirstOfThree(ApiKeyCandidate(h), BearerCandidate(h), DefaultCandidate(defaultToken));
    BearerCaptureIsGreedyMatch(auth);
  }

  /** A resolved token is never empty, and it is missing only when every source is. */
  lemma MissingIffNoSource(h: HeaderMap, defaultToken: Option<string>)
    ensures ResolvedToken(h, defaultToken).Some? ==> ResolvedToken(h, defaultToken).value != ""
    ensures ResolvedToken(h, defaultToken).None? <==>
              ApiKeyCandidate(h) == "" && BearerCandidate(h) == "" && DefaultCandidate(defaultToken) == ""
  {
    FirstOfThree(ApiKeyCandidate(h), BearerCandidate(h), DefaultCandidate(defaultToken));
  }
}
