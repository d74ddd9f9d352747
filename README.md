# Header logic of a single-upstream forwarding proxy, in Dafny

The proxy takes each inbound HTTP request and forwards it to one fixed upstream
API. The handler (`index.js`) first works out the credential to send upstream.
It tries the request's own `x-api-key`, then a `Bearer` authorization, then the
configured default token. With no credential it answers 401. Otherwise it
builds the outbound headers: a denylist of inbound headers is dropped, the rest
is copied, and `user-agent`, `x-api-key` and `accept-encoding` are forced. The
body goes along unless the method is GET or HEAD. When the upstream answers,
its status and every header except the two framing headers are copied onto the
client response.

This project models that per-request logic and proves what it promises.

- `text.dfy` (module `Text`): the JavaScript string operations the handler
  relies on. These are ASCII case mapping, `includes`, `startsWith` and `trim`.
  The whitespace set is written out; `trim` and the regular-expression class
  `\s` share it.
- `headers.dfy` (module `Headers`): inbound header values (`undefined`, a
  string, or an array of strings) and `firstHeaderValue`.
- `useragent.dfy` (module `UserAgent`): `DEFAULT_UA` and `sanitizeUserAgent`.
  It proves that the default string does not itself look scripted, so
  sanitising is idempotent.
- `credentials.dfy` (module `Credentials`): the match of
  `/^Bearer\s+(.+)$/i`, written out with its backtracking. It also holds the
  handler's step-by-step assignment of `authToken` (a method) and the
  resolution order as a specification function, with lemmas for each rung.
- `outbound.dfy` (module `Outbound`): the header-copying loop and the three
  writes after it (a method), the function that specifies it, and the body
  rule. It also holds the handler from token resolution to the prepared fetch
  options, including the 401 answer.
- `relay.dfy` (module `Relay`): the client response as a class with a status
  and a header map. It holds the `forEach` that copies the upstream headers,
  and the choice between ending the response and streaming the body.

Header names are passed through `LowerStr` wherever the source calls
`toLowerCase`. The HTTP server already delivers lower-case names. So the
forced `user-agent`, `x-api-key` and `accept-encoding` replace any inbound
header of that name.

Points of the code the model keeps:

- For a repeated header, the code uses the first non-empty value
  (`find(Boolean)`), not simply the first value.
- A present but empty `user-agent` is replaced, just like an absent one.
- The configuration error (HTTP 500) cannot happen: the upstream origin
  always has a default.

## Model

| member | source | states |
|---|---|---|
| `Text.Trim` | index.js:127 | `trim` keeps a string that neither starts nor ends with whitespace |
| `Text.TrimIsInfix` | index.js:127 | what `trim` keeps is the run of the input between its leading and its trailing whitespace |
| `Text.TrimEmptyIff` | index.js:127 | a trimmed value is empty exactly when the whole value was whitespace, which is when a key falls through |
| `Text.TrimIdempotent` | index.js:127 | a property of `trim` itself rather than of one call: trimming a trimmed string changes nothing |
| `Text.TrimStartSkipsWs` | index.js:132 | leading whitespace makes no difference to trimming |
| `Text.UpperMatchesIgnoringCase` | index.js:177 | upper-casing a method gives `GET`/`HEAD` exactly when it equals that word in any letter case |
| `Headers.FirstTruthy` | index.js:107 | `find(Boolean)` yields the first non-empty string, preceded only by empty ones, and nothing exactly when all are empty |
| `Headers.FirstHeaderValue` | index.js:105-110 | a scalar (or `undefined`) is returned as is; an array yields its first non-empty element, or `undefined` when there is none |
| `UserAgent.SanitizeUserAgent` | index.js:20-27 | the result is never empty and never looks scripted (`LooksScripted`: the lower-cased value contains `node`, `curl` or `httpclient`); an acceptable user-agent passes unchanged; an absent, empty or scripted one becomes `DEFAULT_UA` |
| `UserAgent.DefaultUaIsClean` | index.js:6-8 | the default browser string contains none of `node`, `curl`, `httpclient` in any case |
| `UserAgent.SanitizeIdempotent` | index.js:20-27 | sanitising a sanitised user-agent gives it back |
| `Credentials.BearerCaptureIsGreedyMatch` | index.js:130 | the modelled capture (`BearerCapture`) exists exactly when `/^Bearer\s+(.+)$/i` can match, and it is the capture left by the longest whitespace run, as backtracking finds first |
| `Credentials.BearerTokenIsTrimmedRest` | index.js:130-133 | the trimmed capture equals everything after `Bearer`, trimmed |
| `Credentials.ResolveToken` | index.js:124-138 | the step-by-step assignment of `authToken` yields `ResolvedToken`, the first non-empty of trimmed key, trimmed bearer token and default; it is never empty |
| `Credentials.ApiKeyWins` | index.js:124-127 | a non-blank `x-api-key` is the token whatever `authorization` says |
| `Credentials.BearerIsSecond` | index.js:129-134 | without a usable key, a matching `Bearer` authorization gives the trimmed text after `Bearer` |
| `Credentials.MalformedAuthorizationIgnored` | index.js:129-138 | an authorization the expression cannot match leaves the default to decide |
| `Credentials.DefaultIsLast` | index.js:136-143 | with neither key nor bearer token, a non-empty default is the token, and otherwise there is none |
| `Credentials.MissingIffNoSource` | index.js:136-143 | there is no token exactly when all three candidates are empty; a token is never empty |
| `Outbound.ForwardHeaders` | index.js:145-169 | outbound keys are the three forced ones plus the defined inbound ones whose lower-cased name is not on the copy denylist (`IsDropped`, index.js:149-162); copied values are unchanged; no host, connection, content-length, authorization, via or `x-forwarded-*` key; forced values are the sanitised user-agent, the token and `identity` |
| `Outbound.OverriddenKeysForwardable` | index.js:166-169 | lower-cased, the three forced keys are none of `host`, `connection`, `content-length`, `authorization`, `via` or an `x-forwarded-` name; `user-agent` and `x-api-key` are on the copy denylist and `accept-encoding` is not |
| `Outbound.ForwardHeadersIdempotent` | index.js:145-169 | transforming the outbound headers again with the same token gives them back |
| `Outbound.BuildForwardHeaders` | index.js:145-169 | the copying loop and the three writes produce exactly `ForwardHeaders` |
| `Outbound.AttachesBodyIff` | index.js:177-179 | `AttachesBody` holds, so a body is attached, exactly when the method is neither GET nor HEAD, ignoring case |
| `Outbound.HandleRequest` | index.js:124-179 | the handler answers 401 `Missing Anthropic API token.` exactly when no token resolves, and then prepares nothing; otherwise it prepares the same method, the forwarded headers with a non-empty `x-api-key` and `accept-encoding: identity`, manual redirects, and the body unless GET/HEAD |
| `Relay.ClientResponse.Status` | index.js:191 | `res.status` sets the status and leaves the headers |
| `Relay.ClientResponse.SetHeader` | index.js:198 | `res.setHeader` replaces the value under the lower-cased name and nothing else |
| `Relay.RelayStatusAndHeaders` | index.js:191-199 | the client status is the upstream status and the client headers gain exactly the relayed upstream headers |
| `Relay.RelayedHeadersKeys` | index.js:193-199 | a header name is in `RelayedHeaders` (the headers the loop sets, later entries winning) exactly when some upstream entry has it and it is neither `transfer-encoding` nor `content-length` |
| `Relay.RelayedHeadersValues` | index.js:193-199 | with distinct upstream names, each relayed header keeps its upstream value |
| `Relay.RelayBodyAction` | index.js:201-217 | the body is streamed exactly when the method is not HEAD and upstream sent a body |

## Left out

- Express set-up, the raw body parser and `app.listen` (index.js:1-18, 240-242) are server I/O. The inbound request arrives as a value.
- `getFetch` and `getProxyAgent` (index.js:40-70) build objects of foreign libraries from environment variables. Whether a SOCKS agent is attached does not change the prepared method, headers, redirect mode or body.
- `ensureConfig` (index.js:29-38) reads the environment. The default token is a parameter (`None` when unset). Its error path cannot be reached, because the base URL has a default.
- Target URL resolution (index.js:121) is a WHATWG URL Standard library call.
- The fetch call, the body streaming (`pipeWebStream`, `pipe`, `onError`; index.js:72-103, 182-188, 206-229) and the outer 502 catch (index.js:230-237) are asynchronous I/O. `RelayBodyAction` models only the choice between ending the response and streaming.
- Logging (index.js:122, 167, 189, 207, 231) is left out.
- Case mapping is ASCII only. For the sniffed words, the `Bearer` prefix under the `/i` flag (which never maps non-ASCII to ASCII) and HTTP method tokens, this gives the same answers as the full Unicode mapping.
- `Outbound.BuildForwardHeaders`: the loop visits the inbound names in an unspecified order rather than insertion order. Names are distinct, so the result is the same.
- `Outbound.ForwardHeaders`, `Outbound.BuildForwardHeaders` and `Outbound.HandleRequest` require that `user-agent` is not an array. The server never delivers one. In the source such an array would make `toLowerCase` throw before any response.
- `Relay.ClientResponse`: only the status and the header map are modelled. The original letter case of header names and the body stream are not.
