/**
 * The small part of JavaScript string semantics the proxy relies on:
 * ASCII case mapping (toLowerCase/toUpperCase on header names, methods and
 * the sniffed user-agent words), `includes`, `startsWith`, and `trim`,
 * whose whitespace set is also the one the regular-expression class `\s`
 * matches.
 */
module Text {

  datatype Option<T> = None | Some(value: T)

  /** ASCII lower-casing of one character; every other character is kept. */
  function Lower(c: char): char
  {
    if 'A' <= c <= 'Z' then (c as int + 32) as char else c
  }

  /** ASCII upper-casing of one character; every other character is kept. */
  function Upper(c: char): char
  {
    if 'a' <= c <= 'z' then (c as int - 32) as char else c
  }

  function LowerStr(s: string): string
  {
    seq(|s|, i requires 0 <= i < |s| => Lower(s[i]))
  }

  function UpperStr(s: string): string
  {
    seq(|s|, i requires 0 <= i < |s| => Upper(s[i]))
  }

  /** Case-insensitive equality, stated on the lower-case side. */
  predicate EqualsIgnoringCase(a: string, b: string)
  {
    |a| == |b| && forall i | 0 <= i < |a| :: Lower(a[i]) == Lower(b[i])
  }

  /** `s.startsWith(p)` */
  predicate StartsWith(s: string, p: string)
  {
    |p| <= |s| && s[..|p|] == p
  }

  /** `s.includes(p)`: `p` occurs somewhere in `s` as a contiguous run. */
  predicate Contains(s: string, p: string)
  {
    exists i | 0 <= i <= |s| :: OccursAt(s, p, i)
  }

  predicate OccursAt(s: string, p: string, i: nat)
  {
    i + |p| <= |s| && s[i..i + |p|] == p
  }

  /** The ECMAScript LineTerminator characters, which `.` never matches. */
  predicate IsLineTerminator(c: char)
  {
    c == '\n' || c == '\r' || c == '\U{2028}' || c == '\U{2029}'
  }

  /**
   * ECMAScript WhiteSpace plus LineTerminator: the characters `trim`
   * removes and `\s` matches (tab, vertical tab, form feed, space,
   * no-break space, the Unicode space separators and the byte order mark).
   */
  predicate IsWs(c: char)
  {
    || IsLineTerminator(c)
    || c == '\t' || c == '\U{000B}' || c == '\U{000C}' || c == ' '
    || c == '\U{00A0}' || c == '\U{1680}' || '\U{2000}' <= c <= '\U{200A}'
    || c == '\U{202F}' || c == '\U{205F}' || c == '\U{3000}' || c == '\U{FEFF}'
  }

  predicate AllWs(s: string)
  {
    forall i | 0 <= i < |s| :: IsWs(s[i])
  }

  predicate NoLineTerminator(s: string)
  {
    forall i | 0 <= i < |s| :: !IsLineTerminator(s[i])
  }

  /** The length of the run of whitespace in `s` that starts at `i`. */
  function WsRun(s: string, i: nat): (n: nat)
    requires i <= |s|
    ensures i + n <= |s| && AllWs(s[i..i + n])
    ensures i + n == |s| || !IsWs(s[i + n])
    decreases |s| - i
  {
    if i < |s| && IsWs(s[i]) then
      var n := WsRun(s, i + 1);
      assert s[i..i + 1 + n] == [s[i]] + s[i + 1..i + 1 + n];
      1 + n
    else
      0
  }

  /** The length of the run of whitespace in `s` that ends just before `j`. */
  function WsRunBefore(s: string, j: nat): (n: nat)
    requires j <= |s|
    ensures n <= j && AllWs(s[j - n..j])
    ensures n == j || !IsWs(s[j - n - 1])
    decreases j
  {
    if 0 < j && IsWs(s[j - 1]) then
      var n := WsRunBefore(s, j - 1);
      assert forall k | j - 1 - n <= k < j - 1 :: IsWs(s[k]) by {
        forall k | j - 1 - n <= k < j - 1 ensures IsWs(s[k]) {
          assert s[j - 1 - n..j - 1][k - (j - 1 - n)] == s[k];
        }
      }
      1 + n
    else
      0
  }

  /** A whitespace run ended by a non-whitespace character (or the end) is the one `WsRun` measures. */
  lemma WsRunUnique(s: string, i: nat, m: nat)
    requires i + m <= |s| && AllWs(s[i..i + m])
    requires i + m == |s| || !IsWs(s[i + m])
    ensures WsRun(s, i) == m
  {
    var n := WsRun(s, i);
    forall k | i <= k < i + n ensures IsWs(s[k]) {
      assert s[i..i + n][k - i] == s[k];
    }
    forall k | i <= k < i + m ensures IsWs(s[k]) {
      assert s[i..i + m][k - i] == s[k];
    }
  }

  /** `s.trimStart()`: `s` without its leading whitespace. */
  function TrimStart(s: string): string
  {
    s[WsRun(s, 0)..]
  }

  /** `s.trimEnd()`: `s` without its trailing whitespace. */
  function TrimEnd(s: string): string
  {
    s[..|s| - WsRunBefore(s, |s|)]
  }

  /** `s.trim()`: `trimStart` followed by `trimEnd`. */
  function Trim(s: string): (r: string)
    ensures r == [] || (!IsWs(r[0]) && !IsWs(r[|r| - 1]))
  {
    var t := TrimStart(s);
    var r := TrimEnd(t);
    assert r != [] ==> r[0] == t[0] && t[0] == s[WsRun(s, 0)];
    r
  }

  /**
   * What `trim` keeps is the run of `s` between its leading and its
   * trailing whitespace.
   */
  lemma TrimIsInfix(s: string)
    ensures var i, r := |s| - |TrimStart(s)|, Trim(s);
            i + |r| <= |s| && s[i..i + |r|] == r && AllWs(s[..i]) && AllWs(s[i + |r|..])
  {
    var i := WsRun(s, 0);
    var t := s[i..];
    var e := WsRunBefore(t, |t|);
    var r := t[..|t| - e];
    assert |s| - |TrimStart(s)| == i && Trim(s) == r;
    assert s[i..i + |r|] == r;
    assert s[..i] == s[0..i];
    assert s[i + |r|..] == t[|t| - e..|t|];
  }

  /** Trimming yields the empty string exactly when all of `s` is whitespace. */
  lemma TrimEmptyIff(s: string)
    ensures Trim(s) == [] <==> AllWs(s)
  {
    TrimIsInfix(s);
    var i := WsRun(s, 0);
    if Trim(s) == [] {
      assert s == s[..i] + s[i..];
    } else {
      assert s[i] == Trim(s)[0];
    }
  }

  /** Leading whitespace makes no difference to `trimStart`. */
  lemma TrimStartSkipsWs(w: string, x: string)
    requires AllWs(w)
    ensures TrimStart(w + x) == TrimStart(x)
  {
    var n := WsRun(x, 0);
    assert (w + x)[0..|w| + n] == w + x[0..n];
    assert |w| + n < |w + x| ==> (w + x)[|w| + n] == x[n];
    WsRunUnique(w + x, 0, |w| + n);
    assert (w + x)[|w| + n..] == x[n..];
  }

  /** Trimming twice is trimming once. */
  lemma TrimIdempotent(s: string)
    ensures Trim(Trim(s)) == Trim(s)
  {
    var r := Trim(s);
    assert WsRun(r, 0) == 0 && r[0..] == r;
    assert WsRunBefore(r, |r|) == 0 && r[..|r|] == r;
  }

  /** For a lower-case word, lower-casing `m` gives it exactly when `m` equals it ignoring case. */
  lemma LowerMatchesIgnoringCase(m: string, word: string)
    requires forall i | 0 <= i < |word| :: 'a' <= word[i] <= 'z'
    ensures LowerStr(m) == word <==> EqualsIgnoringCase(m, word)
  {
    if EqualsIgnoringCase(m, word) {
      forall i | 0 <= i < |m| ensures LowerStr(m)[i] == word[i] {
        assert Lower(m[i]) == Lower(word[i]);
      }
    }
  }

  /** The start of a whitespace run is whitespace too. */
  lemma AllWsShorter(s: string, a: nat, n: nat, m: nat)
    requires m <= n && a + n <= |s| && AllWs(s[a..a + n])
    ensures AllWs(s[a..a + m])
  {
    forall k | a <= k < a + m ensures IsWs(s[k]) {
      assert s[a..a + n][k - a] == s[k];
    }
  }

  /** A suffix of a string without line terminators has none either. */
  lemma NoLineTerminatorSuffix(s: string, a: nat, b: nat)
    requires a <= b <= |s| && NoLineTerminator(s[a..])
    ensures NoLineTerminator(s[b..])
  {
    forall j | 0 <= j < |s| - b ensures !IsLineTerminator(s[b..][j]) {
      assert s[b..][j] == s[a..][j + b - a];
    }
  }

  /** For an upper-case word, upper-casing `m` gives it exactly when `m` equals it ignoring case. */
  lemma UpperMatchesIgnoringCase(m: string, word: string)
    requires forall i | 0 <= i < |word| :: 'A' <= word[i] <= 'Z'
    ensures UpperStr(m) == word <==> EqualsIgnoringCase(m, word)
  {
    if EqualsIgnoringCase(m, word) {
      forall i | 0 <= i < |m| ensures UpperStr(m)[i] == word[i] {
        assert Lower(m[i]) == Lower(word[i]);
      }
    }
    if UpperStr(m) == word {
      forall i | 0 <= i < |m| ensures Lower(m[i]) == Lower(word[i]) {
        assert Upper(m[i]) == word[i];
      }
    }
  }
}
