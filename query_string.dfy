/**
  The query-string half of pagination URL generation: with no route value
  to override, the link for page `p` is derived from the current request URL
  (already HTML-encoded) in one of three ways, tried in order: append
  `?page=p` when the URL has no `?`, append `&page=p` when it has no `page=`
  (compared case-insensitively), and otherwise replace every match of the
  regular expression `page=(\d+\.?\d*|\.\d+)` (case-insensitive) by `page=p`.
  The one regular expression is coded by hand as a matcher below.
*/
module QueryString {
  import opened Strings
  import opened RegexReplace

  /** `s` starts with `page=`, letters compared case-insensitively. */
  predicate StartsWithPageToken(s: string) {
    && |s| >= 5
    && (s[0] == 'p' || s[0] == 'P')
    && (s[1] == 'a' || s[1] == 'A')
    && (s[2] == 'g' || s[2] == 'G')
    && (s[3] == 'e' || s[3] == 'E')
    && s[4] == '='
  }

  /** The number of leading decimal digits of `s` (a greedy `\d*`). */
  function DigitRun(s: string): (n: nat)
    ensures n <= |s|
    ensures forall k :: 0 <= k < n ==> IsDigit(s[k])
    ensures n < |s| ==> !IsDigit(s[n])
    decreases |s|
  {
    if s != [] && IsDigit(s[0]) then 1 + DigitRun(s[1..]) else 0
  }

  /**
    The length of the group `(\d+\.?\d*|\.\d+)` matched at the start of `s`,
    0 when neither alternative matches. The first alternative is tried first
    and its quantifiers are greedy, so it takes every leading digit, then a
    dot if one follows, then every digit after the dot. The group fails
    exactly when `s` starts neither with a digit nor with a dot and a digit.
  */
  function NumberLength(s: string): (n: nat)
    ensures n <= |s|
    ensures n == 0 <==> !((|s| >= 1 && IsDigit(s[0])) || (|s| >= 2 && s[0] == '.' && IsDigit(s[1])))
  {
    var d := DigitRun(s);
    if d > 0 then
      if d < |s| && s[d] == '.' then d + 1 + DigitRun(s[d + 1..]) else d
    else if |s| >= 2 && s[0] == '.' && IsDigit(s[1]) then 1 + DigitRun(s[1..])
    else 0
  }

  /**
    The group matches the longest prefix of `s` that is made of digits and at
    most one dot and starts with a digit, or with a dot and a digit: both
    alternatives, with greedy quantifiers.
  */
  lemma NumberLengthGreedy(s: string)
    ensures var n := NumberLength(s);
      && (n > 0 && s[0] == '.' ==> n >= 2 && IsDigit(s[1]))
      && (forall k :: 0 <= k < n ==> IsDigit(s[k]) || s[k] == '.')
      && (forall k, l :: 0 <= k < l < n && s[k] == '.' ==> s[l] != '.')
      && (0 < n < |s| ==> !IsDigit(s[n]) && (s[n] == '.' ==> '.' in s[..n]))
  {
  }

  /** The length of the match of `page=(\d+\.?\d*|\.\d+)` at the start of `s`; 0 when there is none. */
  function MatchLength(s: string): (n: nat)
    ensures n <= |s|
    ensures n > 0 ==> n >= 6 && StartsWithPageToken(s)
  {
    if StartsWithPageToken(s) && NumberLength(s[5..]) > 0 then 5 + NumberLength(s[5..]) else 0
  }

  /**
    `Regex.Replace(s, @"page=(\d+\.?\d*|\.\d+)", rep, RegexOptions.IgnoreCase)`.
    Every match starts with `page=`, so a text without that token comes back
    unchanged.
  */
  function ReplacePageValues(s: string, rep: string): (r: string)
    ensures !HasPageToken(s) ==> r == s
  {
    UnchangedWithoutToken(s, rep);
    Replace(s, rep, MatchLength)
  }

  /** The replacement text `page={page}`. */
  function Replacement(page: int): string {
    "page=" + IntToString(page)
  }

  /** `s.IndexOf("page=", StringComparison.InvariantCultureIgnoreCase) != -1`. */
  predicate HasPageToken(s: string)
    decreases |s|
  {
    |s| >= 5 && (StartsWithPageToken(s) || HasPageToken(s[1..]))
  }

  /** `IndexOf` finds `page=` exactly when some position of `s` starts it. */
  lemma {:induction false} PageTokenIndex(s: string)
    ensures HasPageToken(s) <==> exists i :: 0 <= i <= |s| - 5 && StartsWithPageToken(s[i..])
    decreases |s|
  {
    if |s| >= 5 {
      PageTokenIndex(s[1..]);
      if StartsWithPageToken(s) {
        assert s[0..] == s;
      } else if HasPageToken(s[1..]) {
        var i :| 0 <= i <= |s[1..]| - 5 && StartsWithPageToken(s[1..][i..]);
        assert s[1..][i..] == s[i + 1..];
      } else {
        forall i | 0 <= i <= |s| - 5
          ensures !StartsWithPageToken(s[i..])
        {
          if i == 0 {
            assert s[0..] == s;
          } else {
            assert s[1..][i - 1..] == s[i..];
          }
        }
      }
    }
  }

  /**
    The pagination link derived from the encoded request URL `url`
    (the query-string branches of GeneratePaginationUrl). The link always has
    a query string with a `page=` parameter; when the URL had no `page=`
    parameter in a query string, the URL is kept and one is appended.
  */
  function QueryStringUrl(url: string, page: int): (r: string)
    ensures '?' in r && HasPageToken(r)
    ensures '?' !in url || !HasPageToken(url) ==> url < r
  {
    if '?' !in url then
      AppendedToken(url, "?", page);
      url + "?" + Replacement(page)
    else if !HasPageToken(url) then
      AppendedToken(url, "&", page);
      url + "&" + Replacement(page)
    else
      QuestionMarkKept(url, Replacement(page));
      TokenKept(url, page);
      ReplacePageValues(url, Replacement(page))
  }

  /** Appending `?page=p` or `&page=p` keeps the URL in front and adds a `page=` token after a separator. */
  lemma AppendedToken(url: string, sep: string, p: int)
    requires sep == "?" || sep == "&"
    requires sep == "&" ==> '?' in url
    ensures '?' in url + sep + Replacement(p) && HasPageToken(url + sep + Replacement(p))
    ensures url < url + sep + Replacement(p)
  {
    var r := url + sep + Replacement(p);
    if sep == "?" {
      assert r[|url|] == '?';
    } else {
      var q :| 0 <= q < |url| && url[q] == '?';
      assert r[q] == '?';
    }
    ReplacementToken(p, []);
    assert Replacement(p) + [] == Replacement(p);
    PageTokenAfter(url + sep, Replacement(p));
    assert r[..|url|] == url;
  }

  /** Every match in `s` holds a whole number: digits, with no dot in or after them. */
  predicate IntegerValued(s: string)
    decreases |s|
  {
    s == [] || ((MatchLength(s) > 0 ==> MatchLength(s) == 5 + DigitRun(s[5..])) && IntegerValued(s[1..]))
  }

  /** A character that cannot continue a match that ends before it, nor complete a `page=` that starts before it. */
  predicate SafeBoundary(b: string) {
    b == [] || (!IsDigit(b[0]) && b[0] !in {'.', 'a', 'A', 'g', 'G', 'e', 'E', '='})
  }

  // ----- facts about the matcher -----

  /** The characters a match can consist of. */
  predicate IsMatchCharacter(c: char) {
    IsDigit(c) || c in {'p', 'P', 'a', 'A', 'g', 'G', 'e', 'E', '=', '.'}
  }

  /** A match consists of `page=` followed by digits and dots only. */
  lemma MatchCharacters(s: string, k: nat)
    requires k < MatchLength(s)
    ensures IsMatchCharacter(s[k])
  {
    var x := s[5..];
    if k >= 5 {
      var d := DigitRun(x);
      assert s[k] == x[k - 5];
      if k - 5 >= d && k - 5 != d {
        if d > 0 {
          assert x[d + 1..][k - 5 - d - 1] == x[k - 5];
        } else {
          assert x[1..][k - 5 - 1] == x[k - 5];
        }
      }
    }
  }

  lemma {:induction false} DigitRunAppend(x: string, b: string)
    requires b == [] || !IsDigit(b[0])
    ensures DigitRun(x + b) == DigitRun(x)
    decreases |x|
  {
    if x != [] {
      assert (x + b)[1..] == x[1..] + b;
      DigitRunAppend(x[1..], b);
    } else {
      assert x + b == b;
    }
  }

  lemma NumberLengthAppend(x: string, b: string)
    requires SafeBoundary(b)
    ensures NumberLength(x + b) == NumberLength(x)
  {
    DigitRunAppend(x, b);
    var d := DigitRun(x);
    if d > 0 && d < |x| && x[d] == '.' {
      assert (x + b)[d + 1..] == x[d + 1..] + b;
      DigitRunAppend(x[d + 1..], b);
    } else if d == 0 && |x| >= 2 {
      assert (x + b)[1..] == x[1..] + b;
      DigitRunAppend(x[1..], b);
    }
  }

  /** Text appended after a safe boundary does not change the match at any earlier position. */
  lemma MatchLengthAppend(a: string, b: string)
    requires a != [] && SafeBoundary(b)
    ensures MatchLength(a + b) == MatchLength(a)
  {
    if |a| >= 5 {
      assert (a + b)[..5] == a[..5];
      assert (a + b)[5..] == a[5..] + b;
      NumberLengthAppend(a[5..], b);
    } else if |a + b| >= 5 {
      assert (a + b)[|a|] == b[0];
    }
  }

  // ----- the rewrite -----

  lemma {:induction false} MatchesKeptSafe(a: string, b: string)
    requires SafeBoundary(b)
    ensures MatchesKept(a, b, MatchLength)
    decreases |a|
  {
    if a != [] {
      MatchLengthAppend(a, b);
      MatchesKeptSafe(a[1..], b);
    }
  }

  /** Rewriting a concatenation splits at a safe boundary. */
  lemma ReplaceAppendSafe(a: string, b: string, rep: string)
    requires SafeBoundary(b)
    ensures ReplacePageValues(a + b, rep) == ReplacePageValues(a, rep) + ReplacePageValues(b, rep)
  {
    MatchesKeptSafe(a, b);
    ReplaceAppend(a, b, rep, MatchLength);
  }

  // ----- idempotence of the rewrite -----

  lemma {:induction false} DigitRunAll(s: string)
    requires AllDigits(s)
    ensures DigitRun(s) == |s|
    decreases |s|
  {
    if s != [] {
      DigitRunAll(s[1..]);
    }
  }

  /** A replacement text followed by neither a digit nor a dot is matched whole. */
  lemma ReplacementMatch(p: int, t: string)
    requires p >= 0
    requires t == [] || (!IsDigit(t[0]) && t[0] != '.')
    ensures MatchLength(Replacement(p) + t) == |Replacement(p)|
  {
    var d := IntToString(p);
    assert (Replacement(p) + t)[5..] == d + t;
    DigitRunAll(d);
    DigitRunAppend(d, t);
    if t != [] {
      assert (d + t)[|d|] == t[0];
    }
  }

  /** A text without a `p` holds no match, and text appended to it cannot change a match at any of its positions. */
  lemma {:induction false} NoMatchWithoutP(a: string, b: string)
    requires forall k :: 0 <= k < |a| ==> a[k] != 'p' && a[k] != 'P'
    ensures MatchesKept(a, b, MatchLength) && !HasMatch(a, MatchLength)
    decreases |a|
  {
    if a != [] {
      NoMatchWithoutP(a[1..], b);
    }
  }

  /**
    For a negative page the replacement is `page=-k`, which the pattern does
    not match (a `-` is neither a digit nor a dot): the rewrite keeps it and
    carries on after it.
  */
  lemma NegativeReplacementKept(p: int, t: string, rep: string)
    requires p < 0
    ensures ReplacePageValues(Replacement(p) + t, rep) == Replacement(p) + ReplacePageValues(t, rep)
  {
    var r := Replacement(p);
    var d := IntToString(p);
    var tail := r[1..];
    forall k | 0 <= k < |tail|
      ensures tail[k] != 'p' && tail[k] != 'P'
    {
      if k >= 5 {
        assert tail[k] == d[k - 4] == d[1..][k - 5];
      }
    }
    NoMatchWithoutP(tail, t);
    assert (r + t)[1..] == tail + t;
    assert (r + t)[5..][0] == r[5] == '-';
    ReplaceAppend(r, t, rep, MatchLength);
    ReplaceWithoutMatch(r, rep, MatchLength);
  }

  /** A whole-number match ends at the end of the input or before a character that is neither a digit nor a dot. */
  lemma IntegerBoundary(s: string)
    requires IntegerValued(s) && MatchLength(s) > 0
    ensures MatchLength(s) == |s| || (!IsDigit(s[MatchLength(s)]) && s[MatchLength(s)] != '.')
  {
    var x := s[5..];
    var d := DigitRun(x);
    if 5 + d < |s| {
      assert s[5 + d] == x[d];
    }
  }

  lemma {:induction false} IntegerValuedSuffix(s: string, n: nat)
    requires IntegerValued(s) && n <= |s|
    ensures IntegerValued(s[n..])
    decreases n
  {
    if n == 0 {
      assert s[0..] == s;
    } else {
      IntegerValuedSuffix(s[1..], n - 1);
      assert s[1..][n - 1..] == s[n..];
    }
  }

  /** The rewritten text starts with the replacement or with the input's own first character. */
  lemma ReplaceHead(u: string, p: int)
    requires u != []
    ensures ReplacePageValues(u, Replacement(p)) != []
    ensures ReplacePageValues(u, Replacement(p))[0] in {'p', u[0]}
  {
    if MatchAt(u, MatchLength) > 0 {
      ReplaceOne(u, Replacement(p), MatchLength);
    } else {
      CopyOne(u, Replacement(p), MatchLength);
    }
  }

  /** The replacement text starts with `page=`. */
  lemma ReplacementToken(p: int, t: string)
    ensures StartsWithPageToken(Replacement(p) + t)
  {
  }

  /**
    Putting the replacement text at position `m` of a text that has no match
    at its start creates no match there.
  */
  lemma NoMatchBeforeReplacement(s: string, m: nat, p: int, rest: string)
    requires 0 < m < |s| && MatchLength(s) == 0
    ensures MatchLength(s[..m] + Replacement(p) + rest) == 0
  {
    var r := s[..m] + Replacement(p) + rest;
    assert r[m] == 'p';
    assert forall i :: 0 <= i < m ==> r[i] == s[i];
    NoMatchAfterAgreement(s, r, m);
  }

  /** A text that agrees with `s` before position `m` and has a `p` there starts no match when `s` starts none. */
  lemma NoMatchAfterAgreement(s: string, r: string, m: nat)
    requires 0 < m < |s| && m < |r| && MatchLength(s) == 0
    requires forall i :: 0 <= i < m ==> r[i] == s[i]
    requires r[m] == 'p'
    ensures MatchLength(r) == 0
  {
    if StartsWithPageToken(r) {
      assert m >= 5;
      assert StartsWithPageToken(s);
      if m > 6 {
        assert r[5] == s[5] && r[6] == s[6];
      } else if m == 6 {
        assert r[5] == s[5];
      }
    }
  }

  /** Rewriting never creates a match at a position where there was none. */
  lemma NoMatchCreated(s: string, p: int)
    requires s != [] && MatchLength(s) == 0
    ensures MatchLength(ReplacePageValues(s, Replacement(p))) == 0
  {
    if !HasMatch(s, MatchLength) {
      ReplaceWithoutMatch(s, Replacement(p), MatchLength);
    } else {
      var m, rest := SplitAtMatch(s, Replacement(p), MatchLength);
      NoMatchBeforeReplacement(s, m, p, rest);
    }
  }

  /**
    Rewriting twice with the same page number gives the same text as
    rewriting once, when every match in the input is a whole number.
  */
  lemma {:induction false} RewriteIdempotent(s: string, p: int)
    requires IntegerValued(s)
    ensures ReplacePageValues(ReplacePageValues(s, Replacement(p)), Replacement(p)) == ReplacePageValues(s, Replacement(p))
    decreases |s|
  {
    var rep := Replacement(p);
    if s != [] {
      var n := MatchAt(s, MatchLength);
      if n > 0 {
        ReplaceOne(s, rep, MatchLength);
        var u := s[n..];
        IntegerValuedSuffix(s, n);
        RewriteIdempotent(u, p);
        var r := ReplacePageValues(u, rep);
        if p >= 0 {
          IntegerBoundary(s);
          if u != [] {
            ReplaceHead(u, p);
          }
          ReplacementMatch(p, r);
          ReplaceOne(rep + r, rep, MatchLength);
          assert (rep + r)[|rep|..] == r;
        } else {
          NegativeReplacementKept(p, r, rep);
        }
      } else {
        CopyOne(s, rep, MatchLength);
        NoMatchCreated(s, p);
        var r := ReplacePageValues(s, rep);
        CopyOne(r, rep, MatchLength);
        assert r[1..] == ReplacePageValues(s[1..], rep);
        RewriteIdempotent(s[1..], p);
      }
    }
  }

  lemma {:induction false} QuestionMarkNeverMatched(s: string)
    ensures NeverMatched(s, MatchLength, '?')
    decreases |s|
  {
    if s != [] {
      forall k | 0 <= k < MatchAt(s, MatchLength)
        ensures s[k] != '?'
      {
        MatchCharacters(s, k);
      }
      QuestionMarkNeverMatched(s[1..]);
    }
  }

  /** A `?` is never part of a match, so it survives the rewrite. */
  lemma QuestionMarkKept(s: string, rep: string)
    requires '?' in s
    ensures '?' in ReplacePageValues(s, rep)
  {
    QuestionMarkNeverMatched(s);
    CharacterKept(s, rep, MatchLength, '?');
  }

  lemma {:induction false} PageTokenAfter(x: string, y: string)
    requires StartsWithPageToken(y)
    ensures HasPageToken(x + y)
    decreases |x|
  {
    if x == [] {
      assert x + y == y;
    } else {
      PageTokenAfter(x[1..], y);
      assert (x + y)[1..] == x[1..] + y;
    }
  }

  /** Every match starts with `page=`, so a text without that token has no match. */
  lemma {:induction false} MatchNeedsToken(s: string)
    requires HasMatch(s, MatchLength)
    ensures HasPageToken(s)
    decreases |s|
  {
    if MatchAt(s, MatchLength) == 0 {
      MatchNeedsToken(s[1..]);
    }
  }

  lemma NoMatchWithoutToken(s: string)
    requires !HasPageToken(s)
    ensures !HasMatch(s, MatchLength)
  {
    if HasMatch(s, MatchLength) {
      MatchNeedsToken(s);
    }
  }

  lemma UnchangedWithoutToken(s: string, rep: string)
    ensures !HasPageToken(s) ==> Replace(s, rep, MatchLength) == s
  {
    if !HasPageToken(s) {
      NoMatchWithoutToken(s);
      ReplaceWithoutMatch(s, rep, MatchLength);
    }
  }

  lemma TokenKeptAtMatch(s: string, p: int)
    requires HasMatch(s, MatchLength)
    ensures HasPageToken(ReplacePageValues(s, Replacement(p)))
  {
    var before, after := ReplacementInserted(s, Replacement(p), MatchLength);
    ReplacementToken(p, after);
    PageTokenAfter(before, Replacement(p) + after);
  }

  /** A `page=` token survives the rewrite. */
  lemma TokenKept(s: string, p: int)
    requires HasPageToken(s)
    ensures HasPageToken(ReplacePageValues(s, Replacement(p)))
  {
    if HasMatch(s, MatchLength) {
      TokenKeptAtMatch(s, p);
    } else {
      ReplaceWithoutMatch(s, Replacement(p), MatchLength);
    }
  }

  /** The replacement text, on its own, is one whole match and is rewritten to itself. */
  lemma ReplacementKept(p: int)
    ensures ReplacePageValues(Replacement(p), Replacement(p)) == Replacement(p)
  {
    var rep := Replacement(p);
    assert rep + [] == rep;
    if p >= 0 {
      ReplacementMatch(p, []);
      ReplaceOne(rep, rep, MatchLength);
      assert rep[|rep|..] == [];
    } else {
      NegativeReplacementKept(p, [], rep);
    }
  }

  lemma SeparatedReplacementKept(sep: string, p: int)
    requires sep == "?" || sep == "&"
    ensures ReplacePageValues(sep + Replacement(p), Replacement(p)) == sep + Replacement(p)
  {
    var rep := Replacement(p);
    assert MatchLength(sep + rep) == 0;
    CopyOne(sep + rep, rep, MatchLength);
    assert (sep + rep)[1..] == rep;
    ReplacementKept(p);
  }

  /** A freshly appended `?page=p` or `&page=p` is left as it is by the rewrite. */
  lemma AppendedParameterKept(url: string, sep: string, p: int)
    requires (sep == "?" || sep == "&") && !HasMatch(url, MatchLength)
    ensures ReplacePageValues(url + sep + Replacement(p), Replacement(p)) == url + sep + Replacement(p)
  {
    var rep := Replacement(p);
    var tail := sep + rep;
    assert tail[0] == sep[0];
    assert url + sep + rep == url + tail;
    ReplaceAppendSafe(url, tail, rep);
    ReplaceWithoutMatch(url, rep, MatchLength);
    SeparatedReplacementKept(sep, p);
  }

  /** A URL with a `?` followed somewhere by `page=` takes the rewrite branch. */
  lemma RewriteBranchTaken(prefix: string, t: string, p: int)
    requires '?' in prefix && StartsWithPageToken(t)
    ensures QueryStringUrl(prefix + t, p) == ReplacePageValues(prefix + t, Replacement(p))
  {
    var i :| 0 <= i < |prefix| && prefix[i] == '?';
    assert (prefix + t)[i] == '?';
    PageTokenAfter(prefix, t);
  }

  /** When the parameter was appended, generating again leaves the URL as it is. */
  lemma AppendedUrlStable(url: string, sep: string, p: int)
    requires (sep == "?" || sep == "&") && !HasMatch(url, MatchLength)
    requires sep == "&" ==> '?' in url
    ensures QueryStringUrl(url + sep + Replacement(p), p) == url + sep + Replacement(p)
  {
    assert '?' in url + sep by {
      if sep == "?" {
        assert (url + sep)[|url|] == '?';
      } else {
        var q :| 0 <= q < |url| && url[q] == '?';
        assert (url + sep)[q] == '?';
      }
    }
    ReplacementToken(p, []);
    assert Replacement(p) + [] == Replacement(p);
    RewriteBranchTaken(url + sep, Replacement(p), p);
    AppendedParameterKept(url, sep, p);
  }

  /**
    Generating the link for page `p` from a URL that was itself generated
    for page `p` gives the same URL, provided every existing `page=` value is
    a whole number and, when the URL has no `?`, no `page=` value occurs in
    its path.
  */
  lemma QueryStringUrlIdempotent(url: string, p: int)
    requires IntegerValued(url)
    requires '?' in url || !HasMatch(url, MatchLength)
    ensures QueryStringUrl(QueryStringUrl(url, p), p) == QueryStringUrl(url, p)
  {
    if '?' !in url {
      AppendedUrlStable(url, "?", p);
    } else if !HasPageToken(url) {
      if HasMatch(url, MatchLength) {
        MatchNeedsToken(url);
      }
      AppendedUrlStable(url, "&", p);
    } else {
      QuestionMarkKept(url, Replacement(p));
      TokenKept(url, p);
      RewriteIdempotent(url, p);
    }
  }

  // ----- consequences for particular URLs -----

  /** The replacement text holds no `?`. */
  lemma NoQuestionMarkInReplacement(p: int)
    requires p >= 0
    ensures '?' !in Replacement(p)
  {
    var d := NatToString(p);
    assert Replacement(p) == "page=" + d;
    assert forall k :: 0 <= k < |d| ==> IsDigit(d[k]);
  }

  /** The rewrite of a lone replacement text for page `q` is the one for page `p`. */
  lemma ReplacementRewritten(q: int, p: int)
    requires q >= 0
    ensures ReplacePageValues(Replacement(q), Replacement(p)) == Replacement(p)
  {
    var r := Replacement(q);
    ReplacementMatch(q, []);
    assert r + [] == r;
    ReplaceOne(r, Replacement(p), MatchLength);
    assert r[|r|..] == [];
  }

  /** A prefix that holds no match is copied unchanged by the rewrite. */
  lemma PrefixKept(prefix: string, t: string, rep: string)
    requires !HasMatch(prefix, MatchLength) && SafeBoundary(t)
    ensures ReplacePageValues(prefix + t, rep) == prefix + ReplacePageValues(t, rep)
  {
    ReplaceWithoutMatch(prefix, rep, MatchLength);
    ReplaceAppendSafe(prefix, t, rep);
  }

  /**
    A query string whose only `page=` value is the last parameter: that
    value is replaced by the new page number and nothing else changes.
  */
  lemma SingleValueRewritten(prefix: string, q: int, p: int)
    requires q >= 0 && '?' in prefix && !HasMatch(prefix, MatchLength)
    ensures QueryStringUrl(prefix + Replacement(q), p) == prefix + Replacement(p)
  {
    ReplacementToken(q, []);
    assert Replacement(q) + [] == Replacement(q);
    RewriteBranchTaken(prefix, Replacement(q), p);
    assert Replacement(q)[0] == 'p';
    PrefixKept(prefix, Replacement(q), Replacement(p));
    ReplacementRewritten(q, p);
  }

  /** The value of a lone `subpage=q` is rewritten. */
  lemma SubpageRewritten(q: int, p: int)
    requires q >= 0
    ensures ReplacePageValues("sub" + Replacement(q), Replacement(p)) == "sub" + Replacement(p)
  {
    var rq, rp := Replacement(q), Replacement(p);
    NoMatchWithoutP("sub", rq);
    ReplaceAppend("sub", rq, rp, MatchLength);
    ReplaceWithoutMatch("sub", rp, MatchLength);
    ReplacementRewritten(q, p);
  }

  /** A `?` of a prefix stays in the extended text. */
  lemma QuestionMarkBefore(prefix: string, t: string)
    requires '?' in prefix
    ensures '?' in prefix + t
  {
    var i :| 0 <= i < |prefix| && prefix[i] == '?';
    assert (prefix + t)[i] == '?';
  }

  /** A URL with a `?` and a `subpage=q` parameter takes the rewrite branch. */
  lemma SubpageBranchTaken(prefix: string, q: int, p: int)
    requires '?' in prefix
    ensures QueryStringUrl(prefix + ("sub" + Replacement(q)), p) == ReplacePageValues(prefix + ("sub" + Replacement(q)), Replacement(p))
  {
    var rq := Replacement(q);
    QuestionMarkBefore(prefix, "sub");
    ReplacementToken(q, []);
    assert rq + [] == rq;
    RewriteBranchTaken(prefix + "sub", rq, p);
    Regroup(prefix + ("sub" + rq), prefix, "sub" + rq, "sub", rq);
  }

  /** A parameter whose name merely ends in `page`, such as `subpage`, is rewritten as well. */
  lemma LongerNameRewritten(prefix: string, q: int, p: int)
    requires q >= 0 && '?' in prefix && !HasMatch(prefix, MatchLength)
    ensures QueryStringUrl(prefix + "sub" + Replacement(q), p) == prefix + "sub" + Replacement(p)
  {
    var rq, rp := Replacement(q), Replacement(p);
    Regroup(prefix + ("sub" + rq), prefix, "sub" + rq, "sub", rq);
    SubpageBranchTaken(prefix, q, p);
    PrefixKept(prefix, "sub" + rq, rp);
    SubpageRewritten(q, p);
    Regroup(prefix + ("sub" + rp), prefix, "sub" + rp, "sub", rp);
  }

  /** With `page=` present but never followed by a number (as in `?page=abc`), the URL comes back unchanged. */
  lemma TokenWithoutNumberUnchanged(url: string, p: int)
    requires '?' in url && HasPageToken(url) && !HasMatch(url, MatchLength)
    ensures QueryStringUrl(url, p) == url
  {
    ReplaceWithoutMatch(url, Replacement(p), MatchLength);
  }

  lemma TwoValuesRewritten(a: int, b: int, p: int)
    requires a >= 0 && b >= 0
    ensures ReplacePageValues(Replacement(a) + ("&" + Replacement(b)), Replacement(p)) == Replacement(p) + ("&" + Replacement(p))
  {
    var rep := Replacement(p);
    var tail := "&" + Replacement(b);
    ReplaceAppendSafe(Replacement(a), tail, rep);
    ReplacementRewritten(a, p);
    assert MatchLength(tail) == 0;
    CopyOne(tail, rep, MatchLength);
    assert tail[1..] == Replacement(b);
    ReplacementRewritten(b, p);
  }

  /** `page=v1&page=v2&…&page=vn`: one `page` parameter per value, joined by `&`. */
  function PageParameters(vs: seq<int>): (r: string)
    requires vs != []
    ensures StartsWithPageToken(r)
    decreases |vs|
  {
    if |vs| == 1 then
      ReplacementToken(vs[0], []);
      assert Replacement(vs[0]) + [] == Replacement(vs[0]);
      Replacement(vs[0])
    else
      ReplacementToken(vs[0], "&" + PageParameters(vs[1..]));
      Replacement(vs[0]) + ("&" + PageParameters(vs[1..]))
  }

  /** Every whole-number value of a run of `page` parameters is replaced by the new page number. */
  lemma {:induction false} ParametersRewritten(vs: seq<int>, p: int)
    requires vs != [] && forall k :: 0 <= k < |vs| ==> vs[k] >= 0
    ensures ReplacePageValues(PageParameters(vs), Replacement(p)) == PageParameters(seq(|vs|, k => p))
    decreases |vs|
  {
    if |vs| > 1 {
      ParametersRewritten(vs[1..], p);
      ParametersStep(vs, p);
    } else {
      ReplacementRewritten(vs[0], p);
      assert PageParameters(vs) == Replacement(vs[0]) && PageParameters(seq(|vs|, k => p)) == Replacement(p);
    }
  }

  /** One more parameter in front: its value is replaced, and the `&` and the rest are rewritten on their own. */
  lemma ParametersStep(vs: seq<int>, p: int)
    requires |vs| > 1 && vs[0] >= 0
    requires ReplacePageValues(PageParameters(vs[1..]), Replacement(p)) == PageParameters(seq(|vs| - 1, k => p))
    ensures ReplacePageValues(PageParameters(vs), Replacement(p)) == PageParameters(seq(|vs|, k => p))
  {
    var rp := Replacement(p);
    var ps := seq(|vs|, k => p);
    var rest := PageParameters(vs[1..]);
    ReplacementRewritten(vs[0], p);
    assert ps[1..] == seq(|vs| - 1, k => p);
    assert PageParameters(vs) == Replacement(vs[0]) + ("&" + rest);
    assert PageParameters(ps) == rp + ("&" + PageParameters(ps[1..]));
    SeparatorCopied(Replacement(vs[0]), rest, rp);
  }

  /** An `&` separator is copied, and the rewrite splits at it. */
  lemma SeparatorCopied(a: string, b: string, rep: string)
    ensures ReplacePageValues(a + ("&" + b), rep) == ReplacePageValues(a, rep) + ("&" + ReplacePageValues(b, rep))
  {
    var tail := "&" + b;
    ReplaceAppendSafe(a, tail, rep);
    assert MatchLength(tail) == 0;
    CopyOne(tail, rep, MatchLength);
    assert tail[1..] == b;
  }

  /**
    Every `page=` value is replaced, not only the first: after a prefix
    without a match, any number of `page` parameters with whole-number
    values all end up holding the new page number.
  */
  lemma EveryValueRewritten(prefix: string, vs: seq<int>, p: int)
    requires '?' in prefix && !HasMatch(prefix, MatchLength)
    requires vs != [] && forall k :: 0 <= k < |vs| ==> vs[k] >= 0
    ensures QueryStringUrl(prefix + PageParameters(vs), p) == prefix + PageParameters(seq(|vs|, k => p))
  {
    var t := PageParameters(vs);
    RewriteBranchTaken(prefix, t, p);
    PrefixKept(prefix, t, Replacement(p));
    ParametersRewritten(vs, p);
  }

  /** The first link generated from the path `/page=q`, which has no query string. */
  lemma PathLink(q: int, p: int)
    requires q >= 0
    ensures QueryStringUrl("/" + Replacement(q), p) == "/" + Replacement(q) + "?" + Replacement(p)
  {
    NoQuestionMarkInReplacement(q);
    assert '?' !in "/" + Replacement(q);
  }

  lemma PathRewritten(q: int, p: int)
    requires q >= 0
    ensures ReplacePageValues("/" + Replacement(q), Replacement(p)) == "/" + Replacement(p)
  {
    var path := "/" + Replacement(q);
    assert MatchLength(path) == 0;
    CopyOne(path, Replacement(p), MatchLength);
    assert path[1..] == Replacement(q);
    ReplacementRewritten(q, p);
  }

  /** Generating again from that link rewrites the path segment as well. */
  lemma PathLinkAgain(q: int, p: int)
    requires q >= 0 && p >= 0
    ensures QueryStringUrl("/" + Replacement(q) + "?" + Replacement(p), p) == "/" + Replacement(p) + "?" + Replacement(p)
  {
    var rp := Replacement(p);
    var path := "/" + Replacement(q);
    calc {
      QueryStringUrl(path + "?" + rp, p);
    == { ReplacementToken(p, []);
         assert rp + [] == rp;
         RewriteBranchTaken(path + "?", rp, p); }
      ReplacePageValues(path + "?" + rp, rp);
    == { assert path + "?" + rp == path + ("?" + rp); }
      ReplacePageValues(path + ("?" + rp), rp);
    == { ReplaceAppendSafe(path, "?" + rp, rp); }
      ReplacePageValues(path, rp) + ReplacePageValues("?" + rp, rp);
    == { PathRewritten(q, p);
         SeparatedReplacementKept("?", p); }
      "/" + rp + ("?" + rp);
    == 
      "/" + rp + "?" + rp;
    }
  }

  /** Links that differ only in the page number of the path segment differ. */
  lemma PathLinksDiffer(q: int, p: int)
    requires q >= 0 && p >= 0 && q != p
    ensures "/" + Replacement(p) + "?" + Replacement(p) != "/" + Replacement(q) + "?" + Replacement(p)
  {
    var rp, rq := Replacement(p), Replacement(q);
    assert rp != rq by {
      assert rp[5..] == IntToString(p) && rq[5..] == IntToString(q);
    }
    SegmentsDiffer(rp, rq, "?" + rp);
    assert "/" + rp + "?" + rp == "/" + rp + ("?" + rp);
    assert "/" + rq + "?" + rp == "/" + rq + ("?" + rp);
  }

  lemma SegmentsDiffer(x: string, y: string, t: string)
    requires x != y
    ensures "/" + x + t != "/" + y + t
  {
    if |x| == |y| {
      var k :| 0 <= k < |x| && x[k] != y[k];
      assert ("/" + x + t)[1 + k] == x[k] && ("/" + y + t)[1 + k] == y[k];
    } else {
      assert |"/" + x + t| != |"/" + y + t|;
    }
  }

  /**
    A path segment `/page=q` before the query string is rewritten too, so
    generating the link for page `p` from a link generated for page `p`
    gives a different URL when `q` differs from `p`: the rewrite is not
    idempotent without the path condition of QueryStringUrlIdempotent.
  */
  lemma PathTokenBreaksIdempotence(q: int, p: int)
    requires q >= 0 && p >= 0 && q != p
    ensures QueryStringUrl(QueryStringUrl("/" + Replacement(q), p), p) != QueryStringUrl("/" + Replacement(q), p)
  {
    PathLink(q, p);
    PathLinkAgain(q, p);
    PathLinksDiffer(q, p);
  }
}
