/**
 * User-agent sanitisation: a missing user-agent, or one that looks like a
 * scripted HTTP client, is replaced by a fixed desktop-browser string before
 * the request goes upstream.
 */
module UserAgent {
  import opened Text

  /**
   * The browser string sent instead. It is one string; it is written here in
   * short pieces, each free of `c` or of `l`, so that facts about its
   * characters can be checked piece by piece.
   */
  const DEFAULT_UA: string :=
    UA_PART_1 + UA_PART_2 + UA_PART_3 + UA_PART_4 + UA_PART_5 + UA_PART_6 + UA_PART_7 + UA_PART_8 + UA_PART_9
  const UA_PART_1: string := "Mozilla/5.0 ("
  const UA_PART_2: string := "Macintosh; "
  const UA_PART_3: string := "Intel "
  const UA_PART_4: string := "Mac OS X 10_15_7) "
  const UA_PART_5: string := "AppleWebKit/537.36 "
  const UA_PART_6: string := "(KHTML, like "
  const UA_PART_7: string := "Gecko) "
  const UA_PART_8: string := "Chrome/121.0.0.0 "
  const UA_PART_9: string := "Safari/537.36"

  /** The lower-cased user-agent names a scripted client. */
  predicate LooksScripted(ua: string)
  {
    var lowered := LowerStr(ua);
    Contains(lowered, "node") || Contains(lowered, "curl") || Contains(lowered, "httpclient")
  }

  /**
   * `sanitizeUserAgent(ua)`, with `None` for `undefined`. Whatever comes in,
   * what goes out is a non-empty user-agent that does not look scripted; an
   * acceptable one passes through unchanged.
   */
  function SanitizeUserAgent(ua: Option<string>): (r: string)
    ensures r != "" && !LooksScripted(r)
    ensures ua.Some? && ua.value != "" && !LooksScripted(ua.value) ==> r == ua.value
    ensures ua.None? || ua.value == "" || LooksScripted(ua.value) ==> r == DEFAULT_UA
  {
    DefaultUaIsClean();
    if ua.None? || ua.value == "" then DEFAULT_UA
    else if LooksScripted(ua.value) then DEFAULT_UA
    else ua.value
  }

  /** Sanitising an already sanitised user-agent changes nothing. */
  lemma SanitizeIdempotent(ua: Option<string>)
    ensures SanitizeUserAgent(Some(SanitizeUserAgent(ua))) == SanitizeUserAgent(ua)
  {
  }

  /** The replacement string is itself acceptable. */
  lemma DefaultUaIsClean()
    ensures DEFAULT_UA != "" && !LooksScripted(DEFAULT_UA)
  {
    assert DEFAULT_UA[0] == 'M';
    DefaultUaLacksSniffedPairs();
    CleanIsNotScripted(DEFAULT_UA);
  }

  /** A clean string cannot contain any of the sniffed words. */
  lemma CleanIsNotScripted(s: string)
    requires Clean(s)
    ensures !LooksScripted(s)
  {
    if Contains(LowerStr(s), "node") {
      ContainedCharOccurs(s, "node", 2);
    }
    if Contains(LowerStr(s), "curl") {
      ContainedCharOccurs(s, "curl", 1);
    }
    if Contains(LowerStr(s), "httpclient") {
      ContainedPairOccurs(s, "httpclient", 4);
    }
  }

  // ---- character facts used to show that DEFAULT_UA is clean ----

  /** No character of `s` lower-cases to `c`. */
  predicate Absent(s: string, c: char)
  {
    forall j | 0 <= j < |s| :: Lower(s[j]) != c
  }

  /** No character of `s` that lower-cases to `c` is followed by one that lower-cases to `d`. */
  predicate NoPair(s: string, c: char, d: char)
  {
    forall j | 0 <= j < |s| - 1 :: Lower(s[j]) != c || Lower(s[j + 1]) != d
  }

  /**
   * `s` cannot hold `node` (no `d`), `curl` (no `u`) or `httpclient` (no `c`
   * directly followed by `l`), in any case.
   */
  predicate Clean(s: string)
  {
    Absent(s, 'd') && Absent(s, 'u') && NoPair(s, 'c', 'l')
  }

  /** A piece of the default string: no `d`, no `u`, and no `c` or no `l` at all. */
  predicate CleanPiece(s: string)
  {
    Absent(s, 'd') && Absent(s, 'u') && (Absent(s, 'c') || Absent(s, 'l'))
  }

  lemma ContainedCharOccurs(s: string, p: string, m: nat)
    requires m < |p| && Contains(LowerStr(s), p)
    ensures !Absent(s, p[m])
  {
  }

  lemma ContainedPairOccurs(s: string, p: string, m: nat)
    requires m + 1 < |p| && Contains(LowerStr(s), p)
    ensures !NoPair(s, p[m], p[m + 1])
  {
  }

  /** Appending a clean piece that does not start with `l` keeps a string clean. */
  lemma CleanAppend(a: string, b: string)
    requires Clean(a) && CleanPiece(b)
    requires b == [] || Lower(b[0]) != 'l'
    ensures Clean(a + b)
  {
    assert NoPair(b, 'c', 'l');
    forall j | 0 <= j < |a + b| - 1
      ensures Lower((a + b)[j]) != 'c' || Lower((a + b)[j + 1]) != 'l'
    {
      if j + 1 < |a| {
        assert (a + b)[j] == a[j] && (a + b)[j + 1] == a[j + 1];
      } else if j + 1 == |a| {
        assert (a + b)[j + 1] == b[0];
      } else {
        assert (a + b)[j] == b[j - |a|] && (a + b)[j + 1] == b[j + 1 - |a|];
      }
    }
  }

  /** The default string is clean: the pieces are, and none of them starts with `l`. */
  lemma DefaultUaLacksSniffedPairs()
    ensures Clean(DEFAULT_UA)
  {
    Part1Lacks(); Part2Lacks(); Part3Lacks(); Part4Lacks(); Part5Lacks();
    Part6Lacks(); Part7Lacks(); Part8Lacks(); Part9Lacks();
    var s := UA_PART_1;
    CleanAppend([], s);
    assert [] + s == s;
    CleanAppend(s, UA_PART_2);
    s := s + UA_PART_2;
    CleanAppend(s, UA_PART_3);
    s := s + UA_PART_3;
    CleanAppend(s, UA_PART_4);
    s := s + UA_PART_4;
    CleanAppend(s, UA_PART_5);
    s := s + UA_PART_5;
    CleanAppend(s, UA_PART_6);
    s := s + UA_PART_6;
    CleanAppend(s, UA_PART_7);
    s := s + UA_PART_7;
    CleanAppend(s, UA_PART_8);
    s := s + UA_PART_8;
    CleanAppend(s, UA_PART_9);
    s := s + UA_PART_9;
    assert s == DEFAULT_UA;
  }

  lemma Part1Lacks()
    ensures CleanPiece(UA_PART_1) && Lower(UA_PART_1[0]) != 'l'
  {
    assert Absent(UA_PART_1, 'c');
  }

  lemma Part2Lacks()
    ensures CleanPiece(UA_PART_2) && Lower(UA_PART_2[0]) != 'l'
  {
    assert Absent(UA_PART_2, 'l');
  }

  lemma Part3Lacks()
    ensures CleanPiece(UA_PART_3) && Lower(UA_PART_3[0]) != 'l'
  {
    assert Absent(UA_PART_3, 'c');
  }

  lemma Part4Lacks()
    ensures CleanPiece(UA_PART_4) && Lower(UA_PART_4[0]) != 'l'
  {
    assert Absent(UA_PART_4, 'l');
  }

  lemma Part5Lacks()
    ensures CleanPiece(UA_PART_5) && Lower(UA_PART_5[0]) != 'l'
  {
    assert Absent(UA_PART_5, 'c');
  }

  lemma Part6Lacks()
    ensures CleanPiece(UA_PART_6) && Lower(UA_PART_6[0]) != 'l'
  {
    assert Absent(UA_PART_6, 'c');
  }

  lemma Part7Lacks()
    ensures CleanPiece(UA_PART_7) && Lower(UA_PART_7[0]) != 'l'
  {
    assert Absent(UA_PART_7, 'l');
  }

  lemma Part8Lacks()
    ensures CleanPiece(UA_PART_8) && Lower(UA_PART_8[0]) != 'l'
  {
    assert Absent(UA_PART_8, 'l');
  }

  lemma Part9Lacks()
    ensures CleanPiece(UA_PART_9) && Lower(UA_PART_9[0]) != 'l'
  {
    assert Absent(UA_PART_9, 'l');
  }
}
