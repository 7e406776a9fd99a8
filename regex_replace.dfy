/**
  The scanning discipline of `Regex.Replace(input, pattern, replacement)`,
  independent of the pattern: the leftmost match is found, replaced, and the
  scan resumes right after it, so matches never overlap and every one of them
  is replaced; characters at which no match starts are copied. The pattern is
  given as a matcher: the length of the match at the start of a string, 0
  when no match starts there.
*/
module RegexReplace {

  type Matcher = string -> nat

  /** The match length at the start of `s`; a length beyond the input counts as no match. */
  function MatchAt(s: string, ml: Matcher): (n: nat)
    ensures n <= |s|
  {
    var n := ml(s);
    if n <= |s| then n else 0
  }

  /**
    Replace every non-empty match of `ml` in `s`, scanning left to right, by
    `rep`. Nothing is invented: every character of the result is a character
    of the input or of the replacement.
  */
  function Replace(s: string, rep: string, ml: Matcher): (r: string)
    ensures forall c :: c in r ==> c in s || c in rep
    decreases |s|
  {
    if s == [] then []
    else if MatchAt(s, ml) > 0 then
      var rest := s[MatchAt(s, ml)..];
      assert forall c :: c in rest ==> c in s;
      rep + Replace(rest, rep, ml)
    else
      assert forall c :: c in s[1..] ==> c in s;
      [s[0]] + Replace(s[1..], rep, ml)
  }

  /** Some position of `s` starts a match. */
  predicate HasMatch(s: string, ml: Matcher)
    decreases |s|
  {
    s != [] && (MatchAt(s, ml) > 0 || HasMatch(s[1..], ml))
  }

  lemma Regroup(x: string, a: string, y: string, b: string, c: string)
    requires x == a + y && y == b + c
    ensures x == a + b + c
  {
  }

  /** A character at which no match starts is copied. */
  lemma CopyOne(t: string, rep: string, ml: Matcher)
    requires t != [] && MatchAt(t, ml) == 0
    ensures Replace(t, rep, ml) == [t[0]] + Replace(t[1..], rep, ml)
  {
  }

  /** A match is replaced by the replacement text and the scan resumes after it. */
  lemma ReplaceOne(t: string, rep: string, ml: Matcher)
    requires MatchAt(t, ml) > 0
    ensures Replace(t, rep, ml) == rep + Replace(t[MatchAt(t, ml)..], rep, ml)
  {
  }

  /** Without a match the input comes back unchanged. */
  lemma {:induction false} ReplaceWithoutMatch(s: string, rep: string, ml: Matcher)
    requires !HasMatch(s, ml)
    ensures Replace(s, rep, ml) == s
    decreases |s|
  {
    if s != [] {
      CopyOne(s, rep, ml);
      ReplaceWithoutMatch(s[1..], rep, ml);
    }
  }

  /** No match starts at any of the first `m` positions of `s`. */
  predicate NoMatchBefore(s: string, m: nat, ml: Matcher)
    decreases m
  {
    m == 0 || (s != [] && MatchAt(s, ml) == 0 && NoMatchBefore(s[1..], m - 1, ml))
  }

  lemma {:induction false} NoMatchBeforeAll(s: string, m: nat, ml: Matcher)
    requires NoMatchBefore(s, m, ml)
    ensures m <= |s| || m == 0
    ensures forall j :: 0 <= j < m ==> MatchAt(s[j..], ml) == 0
    decreases m
  {
    if m > 0 {
      NoMatchBeforeAll(s[1..], m - 1, ml);
      forall j | 0 <= j < m
        ensures MatchAt(s[j..], ml) == 0
      {
        if j == 0 {
          assert s[0..] == s;
        } else {
          assert s[1..][j - 1..] == s[j..];
        }
      }
    }
  }

  /** The leftmost match of a text that has one. */
  lemma {:induction false} FindMatch(s: string, ml: Matcher) returns (m: nat)
    requires HasMatch(s, ml)
    ensures m < |s| && MatchAt(s[m..], ml) > 0
    ensures NoMatchBefore(s, m, ml)
    decreases |s|
  {
    if MatchAt(s, ml) > 0 {
      m := 0;
      assert s[0..] == s;
    } else {
      var m' := FindMatch(s[1..], ml);
      m := m' + 1;
      assert s[1..][m'..] == s[m..];
    }
  }

  /** The text before the first `m` positions, where no match starts, is copied unchanged. */
  lemma {:induction false} CopiedBefore(s: string, rep: string, ml: Matcher, m: nat)
    requires m <= |s| && NoMatchBefore(s, m, ml)
    ensures Replace(s, rep, ml) == s[..m] + Replace(s[m..], rep, ml)
    decreases m
  {
    if m == 0 {
      assert s[..0] == [] && s[0..] == s;
    } else {
      CopiedBefore(s[1..], rep, ml, m - 1);
      assert s[1..][m - 1..] == s[m..];
      assert [s[0]] + s[1..][..m - 1] == s[..m];
      CopyOne(s, rep, ml);
      Regroup(Replace(s, rep, ml), [s[0]], Replace(s[1..], rep, ml), s[1..][..m - 1], Replace(s[m..], rep, ml));
    }
  }

  /**
    The rewrite of a text with a match, split at the leftmost match, which
    starts at `m`: the text before it is copied, then comes the replacement,
    then `rest`, the rewrite of the text after the match.
  */
  lemma SplitAtMatch(s: string, rep: string, ml: Matcher) returns (m: nat, rest: string)
    requires HasMatch(s, ml)
    ensures m < |s| && MatchAt(s[m..], ml) > 0
    ensures forall j :: 0 <= j < m ==> MatchAt(s[j..], ml) == 0
    ensures rest == Replace(s[m + MatchAt(s[m..], ml)..], rep, ml)
    ensures Replace(s, rep, ml) == s[..m] + rep + rest
  {
    m := FindMatch(s, ml);
    assert forall j :: 0 <= j < m ==> MatchAt(s[j..], ml) == 0 by {
      NoMatchBeforeAll(s, m, ml);
    }
    rest := ReplaceAtMatch(s, rep, ml, m);
  }

  /** The rewrite of a text whose first match starts at `m`. */
  lemma ReplaceAtMatch(s: string, rep: string, ml: Matcher, m: nat) returns (rest: string)
    requires m < |s| && MatchAt(s[m..], ml) > 0 && NoMatchBefore(s, m, ml)
    ensures rest == Replace(s[m + MatchAt(s[m..], ml)..], rep, ml)
    ensures Replace(s, rep, ml) == s[..m] + rep + rest
  {
    var k := MatchAt(s[m..], ml);
    rest := Replace(s[m + k..], rep, ml);
    CopiedBefore(s, rep, ml, m);
    ReplaceOne(s[m..], rep, ml);
    assert s[m..][k..] == s[m + k..];
  }

  /** A text with a match is rewritten to a text that holds the replacement. */
  lemma ReplacementInserted(s: string, rep: string, ml: Matcher) returns (before: string, after: string)
    requires HasMatch(s, ml)
    ensures Replace(s, rep, ml) == before + (rep + after)
  {
    var m, rest := SplitAtMatch(s, rep, ml);
    before, after := s[..m], rest;
  }

  /** No match of `ml` anywhere in `s` covers a character `c`. */
  predicate NeverMatched(s: string, ml: Matcher, c: char)
    decreases |s|
  {
    s == [] || ((forall k :: 0 <= k < MatchAt(s, ml) ==> s[k] != c) && NeverMatched(s[1..], ml, c))
  }

  lemma {:induction false} NeverMatchedSuffix(s: string, ml: Matcher, c: char, n: nat)
    requires NeverMatched(s, ml, c) && n <= |s|
    ensures NeverMatched(s[n..], ml, c)
    decreases n
  {
    if n == 0 {
      assert s[0..] == s;
    } else {
      NeverMatchedSuffix(s[1..], ml, c, n - 1);
      assert s[1..][n - 1..] == s[n..];
    }
  }

  /** A character of the input that no match covers is still in the output. */
  lemma {:induction false} CharacterKept(s: string, rep: string, ml: Matcher, c: char)
    requires c in s && NeverMatched(s, ml, c)
    ensures c in Replace(s, rep, ml)
    decreases |s|
  {
    var n := MatchAt(s, ml);
    var q :| 0 <= q < |s| && s[q] == c;
    if n > 0 {
      ReplaceOne(s, rep, ml);
      assert s[n..][q - n] == c;
      NeverMatchedSuffix(s, ml, c, n);
      CharacterKept(s[n..], rep, ml, c);
    } else {
      CopyOne(s, rep, ml);
      if q > 0 {
        assert s[1..][q - 1] == c;
        CharacterKept(s[1..], rep, ml, c);
      }
    }
  }

  /** Appending `b` leaves the match at every position of `a` as it was. */
  predicate MatchesKept(a: string, b: string, ml: Matcher)
    decreases |a|
  {
    a == [] || (MatchAt(a + b, ml) == MatchAt(a, ml) && MatchesKept(a[1..], b, ml))
  }

  lemma {:induction false} MatchesKeptSuffix(a: string, b: string, ml: Matcher, n: nat)
    requires MatchesKept(a, b, ml) && n <= |a|
    ensures MatchesKept(a[n..], b, ml)
    decreases n
  {
    if n == 0 {
      assert a[0..] == a;
    } else {
      MatchesKeptSuffix(a[1..], b, ml, n - 1);
      assert a[1..][n - 1..] == a[n..];
    }
  }

  /** One scanning step over `a`, taken the same way over `a + b`. */
  lemma AppendStep(a: string, b: string, rep: string, ml: Matcher) returns (lead: string, step: nat)
    requires a != [] && MatchesKept(a, b, ml)
    ensures 0 < step <= |a|
    ensures Replace(a, rep, ml) == lead + Replace(a[step..], rep, ml)
    ensures Replace(a + b, rep, ml) == lead + Replace(a[step..] + b, rep, ml)
    ensures MatchesKept(a[step..], b, ml)
  {
    var n := MatchAt(a, ml);
    assert MatchAt(a + b, ml) == n;
    if n > 0 {
      lead, step := rep, n;
      assert (a + b)[step..] == a[step..] + b;
      assert Replace(a, rep, ml) == lead + Replace(a[step..], rep, ml) by { ReplaceOne(a, rep, ml); }
      assert Replace(a + b, rep, ml) == lead + Replace(a[step..] + b, rep, ml) by { ReplaceOne(a + b, rep, ml); }
    } else {
      lead, step := [a[0]], 1;
      assert (a + b)[step..] == a[step..] + b;
      assert Replace(a, rep, ml) == lead + Replace(a[step..], rep, ml) by { CopyOne(a, rep, ml); }
      assert Replace(a + b, rep, ml) == lead + Replace(a[step..] + b, rep, ml) by { CopyOne(a + b, rep, ml); }
    }
    MatchesKeptSuffix(a, b, ml, step);
  }

  /** When appending `b` keeps every match of `a`, the two parts are rewritten independently. */
  lemma {:induction false} ReplaceAppend(a: string, b: string, rep: string, ml: Matcher)
    requires MatchesKept(a, b, ml)
    ensures Replace(a + b, rep, ml) == Replace(a, rep, ml) + Replace(b, rep, ml)
    decreases |a|
  {
    if a == [] {
      assert a + b == b;
    } else {
      var lead, step := AppendStep(a, b, rep, ml);
      ReplaceAppend(a[step..], b, rep, ml);
      Regroup(Replace(a + b, rep, ml), lead, Replace(a[step..] + b, rep, ml), Replace(a[step..], rep, ml), Replace(b, rep, ml));
    }
  }
}
