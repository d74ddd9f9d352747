/**
 * Inbound request headers as the HTTP server hands them to the handler: an
 * object from (lower-case) header names to a string, or to an array of
 * strings for a repeated header, where a property may also be `undefined`.
 */
module Headers {
  import opened Text

  /** The JavaScript values a header property can hold. */
  datatype HeaderValue = Undefined | Str(s: string) | Many(values: seq<string>)

  type HeaderMap = map<string, HeaderValue>

  /** `headers[name]`: reading a missing property gives `undefined`. */
  function Lookup(h: HeaderMap, name: string): HeaderValue
  {
    if name in h then h[name] else Undefined
  }

  /**
   * `xs.find(Boolean)`: the first truthy string, i.e. the first non-empty
   * one, or `undefined` when every string is empty.
   */
  function FirstTruthy(xs: seq<string>): (r: Option<string>)
    ensures r.None? <==> forall i | 0 <= i < |xs| :: xs[i] == ""
    ensures r.Some? ==>
              r.value != "" && exists i | 0 <= i < |xs| ::
                xs[i] == r.value && forall j | 0 <= j < i :: xs[j] == ""
  {
    if xs == [] then None
    else if xs[0] != "" then Some(xs[0])
    else
      var r := FirstTruthy(xs[1..]);
      if r.Some? then
        var i :| 0 <= i < |xs| - 1 && xs[1..][i] == r.value && forall j | 0 <= j < i :: xs[1..][j] == "";
        assert xs[i + 1] == r.value;
        r
      else
        r
  }

  /**
   * `firstHeaderValue(value)`: a repeated header yields its first non-empty
   * value (or `undefined`); a single value, or `undefined`, is kept.
   */
  function FirstHeaderValue(v: HeaderValue): (r: Option<string>)
    ensures v.Undefined? ==> r.None?
    ensures v.Str? ==> r == Some(v.s)
    ensures v.Many? ==> (r.None? <==> forall i | 0 <= i < |v.values| :: v.values[i] == "")
    ensures v.Many? && r.Some? ==>
              r.value != "" && exists i | 0 <= i < |v.values| ::
                v.values[i] == r.value && forall j | 0 <= j < i :: v.values[j] == ""
  {
    match v
    case Undefined => None
    case Str(s) => Some(s)
    case Many(xs) => FirstTruthy(xs)
  }
}
