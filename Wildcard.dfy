/**
 * Case-insensitive wildcard matching of a whole name against a pattern in
 * which '*' stands for any run of characters (possibly empty) and '?' for
 * exactly one character; every other pattern character matches itself,
 * ignoring ASCII case. This is the matcher the entry filter uses
 * (FilenameUtils.wildcardMatch with IOCase.INSENSITIVE).
 */
module Wildcard {
  import opened Text

  function Matches(name: string, pattern: string): bool
    decreases |name| + |pattern|
  {
    if pattern == [] then name == []
    else if pattern[0] == '*' then
      Matches(name, pattern[1..]) || (name != [] && Matches(name[1..], pattern))
    else
      name != []
      && (pattern[0] == '?' || LowerChar(name[0]) == LowerChar(pattern[0]))
      && Matches(name[1..], pattern[1..])
  }

  /** A pattern without '*' or '?'. */
  predicate Literal(p: string)
  {
    forall i :: 0 <= i < |p| ==> p[i] != '*' && p[i] != '?'
  }

  /** A literal pattern matches exactly the names equal to it up to case. */
  lemma {:induction false} LiteralMatches(name: string, p: string)
    requires Literal(p)
    ensures Matches(name, p) <==> Lower(name) == Lower(p)
    decreases |p|
  {
    if p != [] && name != [] {
      LiteralMatches(name[1..], p[1..]);
      assert Lower(name) == [LowerChar(name[0])] + Lower(name[1..]);
      assert Lower(p) == [LowerChar(p[0])] + Lower(p[1..]);
    }
  }

  /** "*" followed by a literal suffix matches a name ending in that suffix. */
  lemma {:induction false} StarSuffixMatches(prefix: string, suffix: string)
    requires Literal(suffix)
    ensures Matches(prefix + suffix, "*" + suffix)
    decreases |prefix|
  {
    var p := "*" + suffix;
    assert p[1..] == suffix;
    if prefix == [] {
      assert prefix + suffix == suffix;
      LiteralMatches(suffix, suffix);
    } else {
      assert (prefix + suffix)[1..] == prefix[1..] + suffix;
      StarSuffixMatches(prefix[1..], suffix);
    }
  }

  /** A name matching "*" followed by a literal suffix ends in that suffix up to case. */
  lemma {:induction false} StarSuffixOnly(name: string, suffix: string)
    requires Literal(suffix)
    requires Matches(name, "*" + suffix)
    ensures |suffix| <= |name| && Lower(name[|name| - |suffix|..]) == Lower(suffix)
    decreases |name|
  {
    var p := "*" + suffix;
    assert p[1..] == suffix;
    if Matches(name, suffix) {
      LiteralMatches(name, suffix);
      assert name[|name| - |suffix|..] == name;
    } else {
      StarSuffixOnly(name[1..], suffix);
      assert name[1..][|name| - 1 - |suffix|..] == name[|name| - |suffix|..];
    }
  }

  /** Matching ignores the case of the name. */
  lemma {:induction false} MatchesIgnoresCase(name: string, pattern: string)
    ensures Matches(Lower(name), pattern) == Matches(name, pattern)
    decreases |name| + |pattern|
  {
    if pattern != [] && name != [] {
      assert Lower(name)[1..] == Lower(name[1..]);
      if pattern[0] == '*' {
        MatchesIgnoresCase(name, pattern[1..]);
        MatchesIgnoresCase(name[1..], pattern);
      } else {
        MatchesIgnoresCase(name[1..], pattern[1..]);
      }
    }
  }
}
