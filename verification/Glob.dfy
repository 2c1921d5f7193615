/**
 Path globs as LIKE patterns. In a LIKE pattern `%` is any sequence, `_` any one
 character, and a backslash makes the next character literal.
 */
module Glob {
  function EscapedChar(c: char): string {
    if c == '*' then "%"
    else if c == '?' then "_"
    else if c == '%' || c == '_' || c == '\\' then ['\\', c]
    else [c]
  }

  function LikeOf(glob: string): string {
    if glob == "" then "" else EscapedChar(glob[0]) + LikeOf(glob[1..])
  }

  method PathGlobToLike(glob: string) returns (escaped: string)
    ensures escaped == LikeOf(glob)
  {
    escaped := "";
    for i := 0 to |glob|
      invariant escaped + LikeOf(glob[i..]) == LikeOf(glob)
    {
      assert glob[i..][1..] == glob[i + 1..];
      assert escaped + (EscapedChar(glob[i]) + LikeOf(glob[i + 1..]))
          == (escaped + EscapedChar(glob[i])) + LikeOf(glob[i + 1..]);
      escaped := escaped + EscapedChar(glob[i]);
    }
  }

  // ---------------------------------------------------------------- what the patterns mean

  /** Glob meaning: `*` is any sequence, `?` any one character, everything else is
      itself. `fold` is the identity, or a case folding for a case-insensitive match. */
  ghost predicate GlobMatches(glob: string, s: string, fold: char -> char) {
    if glob == "" then s == ""
    else if glob[0] == '*' then exists k :: 0 <= k <= |s| && GlobMatches(glob[1..], s[k..], fold)
    else if glob[0] == '?' then s != "" && GlobMatches(glob[1..], s[1..], fold)
    else s != "" && fold(s[0]) == fold(glob[0]) && GlobMatches(glob[1..], s[1..], fold)
  }

  /** LIKE with a backslash as escape character, as the database scans it: `%` first
      tries to match nothing and then one more character. A pattern that ends in a
      lone backslash matches nothing. */
  predicate LikeMatches(pattern: string, s: string, fold: char -> char)
    decreases |pattern| + |s|
  {
    if pattern == "" then s == ""
    else if pattern[0] == '%' then
      LikeMatches(pattern[1..], s, fold) || (s != "" && LikeMatches(pattern, s[1..], fold))
    else if pattern[0] == '_' then s != "" && LikeMatches(pattern[1..], s[1..], fold)
    else if pattern[0] == '\\' then
      |pattern| > 1 && s != "" && fold(s[0]) == fold(pattern[1]) && LikeMatches(pattern[2..], s[1..], fold)
    else s != "" && fold(s[0]) == fold(pattern[0]) && LikeMatches(pattern[1..], s[1..], fold)
  }

  predicate DanglingEscape(pattern: string)
    decreases |pattern|
  {
    pattern != "" &&
    if pattern[0] == '\\' then |pattern| == 1 || DanglingEscape(pattern[2..]) else DanglingEscape(pattern[1..])
  }

  lemma {:induction false} PercentMatchesAnySequence(rest: string, s: string, fold: char -> char)
    ensures LikeMatches("%" + rest, s, fold) <==> exists k :: 0 <= k <= |s| && LikeMatches(rest, s[k..], fold)
  {
    var pattern := "%" + rest;
    assert pattern[1..] == rest && s[0..] == s;
    if s != "" {
      PercentMatchesAnySequence(rest, s[1..], fold);
      if k :| 0 <= k <= |s| && LikeMatches(rest, s[k..], fold) {
        assert k > 0 ==> s[1..][k - 1..] == s[k..];
      }
      if k :| 0 <= k <= |s[1..]| && LikeMatches(rest, s[1..][k..], fold) {
        assert s[1..][k..] == s[k + 1..];
      }
    }
  }

  /** The translated pattern matches exactly what the glob matches, for every glob and
      every text, case-sensitively or not. */
  lemma {:induction false} LikeMeansTheGlob(glob: string, s: string, fold: char -> char)
    ensures LikeMatches(LikeOf(glob), s, fold) <==> GlobMatches(glob, s, fold)
    decreases |glob|
  {
    if glob != "" {
      var rest := LikeOf(glob[1..]);
      if glob[0] == '*' {
        PercentMatchesAnySequence(rest, s, fold);
        forall k | 0 <= k <= |s|
          ensures LikeMatches(rest, s[k..], fold) <==> GlobMatches(glob[1..], s[k..], fold)
        {
          LikeMeansTheGlob(glob[1..], s[k..], fold);
        }
      } else if s != "" {
        LikeMeansTheGlob(glob[1..], s[1..], fold);
        assert LikeOf(glob)[|EscapedChar(glob[0])|..] == rest;
      }
    }
  }

  /** A translated pattern never ends in a lone escape character, which the database
      would reject. */
  lemma {:induction false} NoDanglingEscape(glob: string)
    ensures !DanglingEscape(LikeOf(glob))
  {
    if glob != "" {
      NoDanglingEscape(glob[1..]);
      assert LikeOf(glob)[|EscapedChar(glob[0])|..] == LikeOf(glob[1..]);
    }
  }

  /** The folding of a case-sensitive match. */
  function Exact(c: char): char {
    c
  }

  /** `LIKE 'prefix%'`, for a prefix without special characters, is a prefix test. */
  lemma {:induction false} PrefixPattern(prefix: string, s: string)
    requires forall i :: 0 <= i < |prefix| ==> prefix[i] != '%' && prefix[i] != '_' && prefix[i] != '\\'
    ensures LikeMatches(prefix + "%", s, Exact) <==> |prefix| <= |s| && s[..|prefix|] == prefix
  {
    if prefix == "" {
      PercentMatchesAnySequence("", s, Exact);
      assert prefix + "%" == "%" + "" && s[|s|..] == "" && LikeMatches("", s[|s|..], Exact);
    } else if s != "" {
      PrefixPattern(prefix[1..], s[1..]);
      assert (prefix + "%")[1..] == prefix[1..] + "%";
      if s[0] == prefix[0] && |prefix| <= |s| {
        assert s[..|prefix|] == [s[0]] + s[1..][..|prefix| - 1] && prefix == [prefix[0]] + prefix[1..];
      }
    }
  }
}
