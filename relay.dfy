/**
 * The start of the response relay: the client response takes the upstream
 * status and every upstream header except the two framing headers, which the
 * server recomputes; then either the response ends at once or the upstream
 * body is streamed.
 */
module Relay {
  import opened Text

  /** The part of the client response the relay writes before the body. */
  class ClientResponse {
    var statusCode: int
    /** Header values by lower-cased name, as `setHeader` keeps them. */
    var headers: map<string, string>

    constructor ()
      ensures statusCode == 200 && headers == map[]
    {
      statusCode := 200;
      headers := map[];
    }

    /** `res.status(code)` */
    method Status(code: int)
      modifies this
      ensures statusCode == code && headers == old(headers)
    {
      statusCode := code;
    }

    /** `res.setHeader(name, value)`: replaces any value under the same name, in any case. */
    method SetHeader(name: string, value: string)
      modifies this
      ensures headers == old(headers)[LowerStr(name) := value]
      ensures statusCode == old(statusCode)
    {
      headers := headers[LowerStr(name) := value];
    }
  }

  /** The upstream headers that are never relayed, by lower-cased name. */
  predicate IsFraming(lowerKey: string)
  {
    lowerKey == "transfer-encoding" || lowerKey == "content-length"
  }

  /**
   * The headers the relay loop sets, given the upstream header entries in
   * the order `forEach` visits them; a later entry for the same name wins.
   */
  function RelayedHeaders(entries: seq<(string, string)>): map<string, string>
    decreases |entries|
  {
    if entries == [] then map[]
    else
      var prev := RelayedHeaders(entries[..|entries| - 1]);
      var (key, value) := entries[|entries| - 1];
      if IsFraming(LowerStr(key)) then prev else prev[LowerStr(key) := value]
  }

  /**
   * A name is relayed exactly when some upstream entry has it (in any case)
   * and it is not a framing header.
   */
  lemma {:induction false} RelayedHeadersKeys(entries: seq<(string, string)>, name: string)
    ensures name in RelayedHeaders(entries) <==>
              !IsFraming(name) && exists i | 0 <= i < |entries| :: LowerStr(entries[i].0) == name
    decreases |entries|
  {
    if entries != [] {
      var init := entries[..|entries| - 1];
      RelayedHeadersKeys(init, name);
      if exists i | 0 <= i < |init| :: LowerStr(init[i].0) == name {
        var i :| 0 <= i < |init| && LowerStr(init[i].0) == name;
        assert entries[i] == init[i];
      }
      if exists i | 0 <= i < |entries| :: LowerStr(entries[i].0) == name {
        var i :| 0 <= i < |entries| && LowerStr(entries[i].0) == name;
        if i < |init| {
          assert init[i] == entries[i];
        }
      }
    }
  }

  /** The upstream entries name each header once, ignoring case. */
  predicate DistinctNames(entries: seq<(string, string)>)
  {
    forall i, j | 0 <= i < j < |entries| :: LowerStr(entries[i].0) != LowerStr(entries[j].0)
  }

  /** When names are distinct, every relayed header keeps its upstream value. */
  lemma {:induction false} RelayedHeadersValues(entries: seq<(string, string)>, i: nat)
    requires DistinctNames(entries)
    requires i < |entries| && !IsFraming(LowerStr(entries[i].0))
    ensures LowerStr(entries[i].0) in RelayedHeaders(entries)
    ensures RelayedHeaders(entries)[LowerStr(entries[i].0)] == entries[i].1
    decreases |entries|
  {
    var init := entries[..|entries| - 1];
    if i < |entries| - 1 {
      assert init[i] == entries[i];
      RelayedHeadersValues(init, i);
    }
  }

  /**
   * `res.status(upstream.status)` and the `forEach` over the upstream
   * headers that calls `res.setHeader` for every non-framing one.
   */
  method RelayStatusAndHeaders(res: ClientResponse, status: int, entries: seq<(string, string)>)
    modifies res
    ensures res.statusCode == status
    ensures res.headers == old(res.headers) + RelayedHeaders(entries)
  {
    res.Status(status);
    var i := 0;
    while i < |entries|
      invariant 0 <= i <= |entries|
      invariant res.statusCode == status
      invariant res.headers == old(res.headers) + RelayedHeaders(entries[..i])
    {
      var (key, value) := entries[i];
      assert entries[..i + 1][..i] == entries[..i];
      var lowerKey := LowerStr(key);
      if !(lowerKey == "transfer-encoding" || lowerKey == "content-length") {
        res.SetHeader(key, value);
      }
      i := i + 1;
    }
    assert entries[..i] == entries;
  }

  /** What the relay does after the headers. */
  datatype BodyAction = EndWithoutBody | StreamBody

  /** A HEAD request, or an upstream response without a body, ends at once. */
  function RelayBodyAction(verb: string, upstreamHasBody: bool): (a: BodyAction)
    ensures a == StreamBody <==> !EqualsIgnoringCase(verb, "HEAD") && upstreamHasBody
  {
    UpperMatchesIgnoringCase(verb, "HEAD");
    if UpperStr(verb) == "HEAD" then EndWithoutBody
    else if !upstreamHasBody then EndWithoutBody
    else StreamBody
  }
}
