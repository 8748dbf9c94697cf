/**
 * String helpers used by the rules parser and the minifier: case folding,
 * Java's String.trim, the space tokenizer of StringUtils.split with a maximum
 * token count, and the small amount of path handling the core relies on
 * (file-name part of a path, resolving a name against a folder, separator
 * normalisation).
 */
module Text {
  import opened Wrappers

  /** Lower-cases one character. Only ASCII letters are folded. */
  function LowerChar(c: char): (r: char)
    ensures 'A' <= c <= 'Z' ==> r as int == c as int + 32
    ensures !('A' <= c <= 'Z') ==> r == c
  {
    if 'A' <= c <= 'Z' then (c as int + 32) as char else c
  }

  /** String.toLowerCase, restricted to ASCII letters. */
  function Lower(s: string): (r: string)
    ensures |r| == |s|
    ensures forall i :: 0 <= i < |s| ==> r[i] == LowerChar(s[i])
    decreases |s|
  {
    if s == [] then [] else [LowerChar(s[0])] + Lower(s[1..])
  }

  /** String.equalsIgnoreCase. */
  predicate EqualsIgnoreCase(a: string, b: string)
  {
    Lower(a) == Lower(b)
  }

  /** String.startsWith. */
  predicate StartsWith(s: string, prefix: string)
  {
    |prefix| <= |s| && s[..|prefix|] == prefix
  }

  /** The characters String.trim removes: every code point up to and including the space. */
  predicate IsTrimmed(c: char)
  {
    c <= ' '
  }

  function TrimStart(s: string): (r: string)
    ensures |r| <= |s|
    decreases |s|
  {
    if |s| > 0 && IsTrimmed(s[0]) then TrimStart(s[1..]) else s
  }

  function TrimEnd(s: string): (r: string)
    ensures |r| <= |s|
    decreases |s|
  {
    if |s| > 0 && IsTrimmed(s[|s| - 1]) then TrimEnd(s[..|s| - 1]) else s
  }

  /** TrimStart drops the longest prefix of trimmed characters. */
  lemma {:induction false} TrimStartSpec(s: string)
    ensures var r := TrimStart(s);
            && r == s[|s| - |r|..]
            && (forall i :: 0 <= i < |s| - |r| ==> IsTrimmed(s[i]))
            && (r == [] || !IsTrimmed(r[0]))
    decreases |s|
  {
    if |s| > 0 && IsTrimmed(s[0]) {
      TrimStartSpec(s[1..]);
    }
  }

  /** TrimEnd drops the longest suffix of trimmed characters. */
  lemma {:induction false} TrimEndSpec(s: string)
    ensures var r := TrimEnd(s);
            && r == s[..|r|]
            && (forall i :: |r| <= i < |s| ==> IsTrimmed(s[i]))
            && (r == [] || !IsTrimmed(r[|r| - 1]))
    decreases |s|
  {
    if |s| > 0 && IsTrimmed(s[|s| - 1]) {
      TrimEndSpec(s[..|s| - 1]);
    }
  }

  /**
   * String.trim: drops the longest prefix and the longest suffix of characters
   * up to ' '.
   */
  function Trim(s: string): string
  {
    TrimEnd(TrimStart(s))
  }

  /**
   * Trim leaves a string that neither starts nor ends with a trimmed
   * character, cut out of s at the offset k = |s| - |TrimStart(s)|, and only
   * drops trimmed characters.
   */
  lemma TrimSpec(s: string)
    ensures var r := Trim(s);
            var k := |s| - |TrimStart(s)|;
            && 0 <= k <= |s| - |r| && r == s[k..k + |r|]
            && (r == [] || (!IsTrimmed(r[0]) && !IsTrimmed(r[|r| - 1])))
            && (forall i :: 0 <= i < k ==> IsTrimmed(s[i]))
            && (forall i :: k + |r| <= i < |s| ==> IsTrimmed(s[i]))
  {
    var t := TrimStart(s);
    TrimStartSpec(s);
    TrimEndSpec(t);
    var r := TrimEnd(t);
    var k := |s| - |t|;
    assert t == s[k..] && r == t[..|r|];
    assert s[k..][..|r|] == s[k..k + |r|];
    assert r == s[k..k + |r|];
  }

  /** Drops the leading run of spaces. */
  function SkipSpaces(s: string): (r: string)
    ensures |r| <= |s|
    ensures r == [] || r[0] != ' '
    decreases |s|
  {
    if |s| > 0 && s[0] == ' ' then SkipSpaces(s[1..]) else s
  }

  /** The length of the leading run of non-space characters. */
  function WordLength(s: string): (n: nat)
    ensures n <= |s|
    ensures |s| > 0 && s[0] != ' ' ==> n > 0
    decreases |s|
  {
    if |s| == 0 || s[0] == ' ' then 0 else 1 + WordLength(s[1..])
  }

  /** SkipSpaces drops exactly the leading spaces. */
  lemma {:induction false} SkipSpacesSpec(s: string)
    ensures var r := SkipSpaces(s);
            r == s[|s| - |r|..] && forall i :: 0 <= i < |s| - |r| ==> s[i] == ' '
    decreases |s|
  {
    if |s| > 0 && s[0] == ' ' {
      SkipSpacesSpec(s[1..]);
    }
  }

  /** WordLength stops at the first space. */
  lemma {:induction false} WordLengthSpec(s: string)
    ensures var n := WordLength(s);
            NoSpace(s[..n]) && (n == |s| || s[n] == ' ')
    decreases |s|
  {
    if |s| > 0 && s[0] != ' ' {
      WordLengthSpec(s[1..]);
      assert s[..WordLength(s)] == [s[0]] + s[1..][..WordLength(s[1..])];
    }
  }

  /** A string with no space in it. */
  predicate NoSpace(t: string)
  {
    forall i :: 0 <= i < |t| ==> t[i] != ' '
  }

  /** Every token is non-empty and starts with a non-space character. */
  predicate AllTokens(ts: seq<string>)
  {
    ts == [] || (|ts[0]| > 0 && ts[0][0] != ' ' && AllTokens(ts[1..]))
  }

  /** Every token is free of spaces. */
  predicate AllWords(ts: seq<string>)
  {
    ts == [] || (NoSpace(ts[0]) && AllWords(ts[1..]))
  }

  /**
   * StringUtils.split(s, " ", max): the maximal runs of non-space characters,
   * except that the max-th token, once reached, runs from its first character
   * to the end of s. A max of 0 means no limit.
   */
  function Split(s: string, max: nat): (tokens: seq<string>)
    decreases |s|
  {
    var t := SkipSpaces(s);
    if t == [] then []
    else if max == 1 then [t]
    else
      var n := WordLength(t);
      [t[..n]] + Split(t[n..], if max == 0 then 0 else max - 1)
  }

  /**
   * At most max tokens (any number when max is 0), each non-empty and
   * starting with a non-space character; all of them words, except that the
   * last may hold spaces when it is the max-th.
   */
  lemma {:induction false} SplitSpec(s: string, max: nat)
    ensures var tokens := Split(s, max);
            && (max > 0 ==> |tokens| <= max)
            && AllTokens(tokens)
            && ((max == 0 || |tokens| < max) ==> AllWords(tokens))
            && (|tokens| > 0 ==> AllWords(tokens[..|tokens| - 1]))
    decreases |s|
  {
    var t := SkipSpaces(s);
    if t != [] && max != 1 {
      var n := WordLength(t);
      var head := t[..n];
      var max' := if max == 0 then 0 else max - 1;
      var rest := Split(t[n..], max');
      SplitSpec(t[n..], max');
      WordLengthSpec(t);
      var r := [head] + rest;
      assert Split(s, max) == r;
      assert r[1..] == rest;
      assert rest != [] ==> r[..|r| - 1][1..] == rest[..|rest| - 1];
    }
  }

  /** A run of n spaces. */
  function Spaces(n: nat): (r: string)
    ensures |r| == n && forall i :: 0 <= i < n ==> r[i] == ' '
  {
    seq(n, _ => ' ')
  }

  /** The text made of the tokens ts, with gaps[i] spaces in front of ts[i] and gaps[|ts|] after the last. */
  function Rebuild(ts: seq<string>, gaps: seq<nat>): string
    requires |gaps| == |ts| + 1
    decreases |ts|
  {
    if ts == [] then Spaces(gaps[0]) else Spaces(gaps[0]) + ts[0] + Rebuild(ts[1..], gaps[1..])
  }

  /** The runs of spaces around and between the tokens of Split(s, max). */
  function Gaps(s: string, max: nat): (gaps: seq<nat>)
    decreases |s|
  {
    var t := SkipSpaces(s);
    var k := |s| - |t|;
    if t == [] then [k]
    else if max == 1 then [k, 0]
    else
      var n := WordLength(t);
      [k] + Gaps(t[n..], if max == 0 then 0 else max - 1)
  }

  /**
   * s is the tokens ts in order, with the gaps of spaces around them, at
   * least one space between two neighbours, and no space after the max-th.
   */
  predicate Rebuilds(s: string, ts: seq<string>, gaps: seq<nat>, max: nat)
  {
    && |gaps| == |ts| + 1
    && s == Rebuild(ts, gaps)
    && (forall i :: 0 < i < |ts| ==> gaps[i] > 0)
    && (max > 0 && |ts| == max ==> gaps[max] == 0)
  }

  /**
   * Split cuts s into its tokens: s is the tokens in order, with runs of
   * spaces around them and at least one space between two neighbours; the
   * max-th token, once reached, runs to the end of s.
   */
  lemma {:induction false} SplitContent(s: string, max: nat)
    ensures Rebuilds(s, Split(s, max), Gaps(s, max), max)
    decreases |s|
  {
    var t := SkipSpaces(s);
    if t == [] || max == 1 {
      SplitContentEnd(s, max);
    } else {
      SplitContent(t[WordLength(t)..], if max == 0 then 0 else max - 1);
      SplitContentWord(s, max);
    }
  }

  /** No token left, or the last permitted one. */
  lemma SplitContentEnd(s: string, max: nat)
    requires SkipSpaces(s) == [] || max == 1
    ensures Rebuilds(s, Split(s, max), Gaps(s, max), max)
  {
    var t := SkipSpaces(s);
    var k := |s| - |t|;
    SkipSpacesSpec(s);
    SpacesPrefix(s, k);
    if t == [] {
      assert s == Spaces(k) + [];
    } else {
      assert s == Spaces(k) + t + Spaces(0);
    }
  }

  /** A word split off in front of the tokens of the rest. */
  lemma SplitContentWord(s: string, max: nat)
    requires SkipSpaces(s) != [] && max != 1
    requires var t := SkipSpaces(s);
             var u := t[WordLength(t)..];
             var max' := if max == 0 then 0 else max - 1;
             Rebuilds(u, Split(u, max'), Gaps(u, max'), max')
    ensures Rebuilds(s, Split(s, max), Gaps(s, max), max)
  {
    var t := SkipSpaces(s);
    var k := |s| - |t|;
    var n := WordLength(t);
    var max' := if max == 0 then 0 else max - 1;
    var u := t[n..];
    SkipSpacesSpec(s);
    SpacesPrefix(s, k);
    WordLengthSpec(t);
    SplitAt(s, k, n);
    if u != [] {
      // The rest starts with the space that ends the word, so its first gap is not empty.
      assert u[0] == ' ' && |SkipSpaces(u)| < |u|;
    }
    RebuildsCons(s, k, t[..n], u, Split(u, max'), Gaps(u, max'), max);
  }

  /** The max-th token, once reached, is the rest of the line: a suffix of s. */
  lemma SplitRestOfLine(s: string, max: nat)
    requires max > 0 && |Split(s, max)| == max
    ensures var last := Split(s, max)[max - 1];
            |last| <= |s| && last == s[|s| - |last|..]
  {
    SplitContent(s, max);
    RebuildEnds(Split(s, max), Gaps(s, max));
  }

  /** With no gap after it, the last token ends the rebuilt text. */
  lemma {:induction false} RebuildEnds(ts: seq<string>, gaps: seq<nat>)
    requires |gaps| == |ts| + 1 && |ts| > 0 && gaps[|ts|] == 0
    ensures var r, last := Rebuild(ts, gaps), ts[|ts| - 1];
            |last| <= |r| && last == r[|r| - |last|..]
    decreases |ts|
  {
    var r := Rebuild(ts, gaps);
    if |ts| == 1 {
      assert ts[1..] == [] && gaps[1..][0] == 0;
      assert Rebuild(ts[1..], gaps[1..]) == Spaces(0) == [];
      assert r == Spaces(gaps[0]) + ts[0];
    } else {
      RebuildEnds(ts[1..], gaps[1..]);
      var rest := Rebuild(ts[1..], gaps[1..]);
      assert r == (Spaces(gaps[0]) + ts[0]) + rest;
      assert ts[|ts| - 1] == ts[1..][|ts| - 2];
    }
  }

  lemma SpacesPrefix(s: string, k: nat)
    requires k <= |s| && forall i :: 0 <= i < k ==> s[i] == ' '
    ensures s == Spaces(k) + s[k..]
  {
    assert s[..k] == Spaces(k);
    assert s == s[..k] + s[k..];
  }

  lemma SplitAt(s: string, k: nat, n: nat)
    requires k + n <= |s| && s == Spaces(k) + s[k..]
    ensures s == Spaces(k) + s[k..][..n] + s[k..][n..]
  {
    assert s[k..] == s[k..][..n] + s[k..][n..];
  }

  lemma RebuildsCons(s: string, k: nat, w: string, u: string, rts: seq<string>, rgaps: seq<nat>, max: nat)
    requires s == Spaces(k) + w + u && max != 1
    requires Rebuilds(u, rts, rgaps, if max == 0 then 0 else max - 1)
    requires rts != [] ==> rgaps[0] > 0
    ensures Rebuilds(s, [w] + rts, [k] + rgaps, max)
  {
    assert ([w] + rts)[1..] == rts && ([k] + rgaps)[1..] == rgaps;
  }

  /** A word, followed by nothing or by a space, splits off as the first token. */
  lemma SplitWord(w: string, rest: string, max: nat)
    requires |w| > 0 && NoSpace(w)
    requires rest == [] || rest[0] == ' '
    requires max != 1
    ensures Split(w + rest, max) == [w] + Split(rest, if max == 0 then 0 else max - 1)
  {
    var s := w + rest;
    assert SkipSpaces(s) == s;
    WordLengthOf(w, rest);
    assert s[..|w|] == w && s[|w|..] == rest;
  }

  lemma WordLengthOf(w: string, rest: string)
    requires NoSpace(w)
    requires rest == [] || rest[0] == ' '
    ensures WordLength(w + rest) == |w|
    decreases |w|
  {
    if |w| > 0 {
      assert (w + rest)[1..] == w[1..] + rest;
      WordLengthOf(w[1..], rest);
    }
  }

  /** The last permitted token holds the rest of the line. */
  lemma SplitLast(s: string)
    requires |s| > 0 && s[0] != ' '
    ensures Split(s, 1) == [s]
  {
  }

  /** Leading spaces never change the tokens. */
  lemma SplitSkipsSpaces(s: string, max: nat)
    ensures Split(" " + s, max) == Split(s, max)
  {
    assert (" " + s)[1..] == s;
  }

  /** FilenameUtils.separatorsToSystem with '/' as the system separator. */
  function SystemPath(s: string): (r: string)
    ensures |r| == |s|
    ensures forall i :: 0 <= i < |s| ==> r[i] == if s[i] == '\\' then '/' else s[i]
    decreases |s|
  {
    if s == [] then [] else [if s[0] == '\\' then '/' else s[0]] + SystemPath(s[1..])
  }

  /** Lower-casing and separator normalisation commute. */
  lemma LowerSystemPath(s: string)
    ensures Lower(SystemPath(s)) == SystemPath(Lower(s))
  {
    assert forall i :: 0 <= i < |s| ==> Lower(SystemPath(s))[i] == SystemPath(Lower(s))[i];
  }

  function DropTrailingSlashes(p: string): string
    decreases |p|
  {
    if |p| > 0 && p[|p| - 1] == '/' then DropTrailingSlashes(p[..|p| - 1]) else p
  }

  /** DropTrailingSlashes drops exactly the trailing run of '/'. */
  lemma {:induction false} DropTrailingSlashesSpec(p: string)
    ensures var r := DropTrailingSlashes(p);
            && |r| <= |p| && r == p[..|r|]
            && (forall i :: |r| <= i < |p| ==> p[i] == '/')
            && (r == [] || r[|r| - 1] != '/')
    decreases |p|
  {
    if |p| > 0 && p[|p| - 1] == '/' {
      DropTrailingSlashesSpec(p[..|p| - 1]);
    }
  }

  /** The part of p after its last '/'. */
  function LastSegment(p: string): string
    decreases |p|
  {
    if p == [] || p[|p| - 1] == '/' then [] else LastSegment(p[..|p| - 1]) + [p[|p| - 1]]
  }

  /** LastSegment is the longest suffix without '/'. */
  lemma {:induction false} LastSegmentSpec(p: string)
    ensures var r := LastSegment(p);
            && |r| <= |p| && r == p[|p| - |r|..]
            && '/' !in r
            && (|r| == |p| || p[|p| - |r| - 1] == '/')
    decreases |p|
  {
    if p != [] && p[|p| - 1] != '/' {
      LastSegmentSpec(p[..|p| - 1]);
      assert p == p[..|p| - 1] + [p[|p| - 1]];
    }
  }

  /**
   * Paths.get(p).getFileName() on a POSIX system, for a non-empty p: the last
   * name element, ignoring trailing separators; None (Java's null) when p has
   * none. (The empty path, whose file name is itself, is never passed here:
   * split tokens are non-empty.)
   */
  function FileName(p: string): Option<string>
  {
    var q := DropTrailingSlashes(p);
    if q == [] then None else Some(LastSegment(q))
  }

  /** The file name of a non-empty path is None exactly when it is slashes only; otherwise a non-empty name without '/'. */
  lemma FileNameSpec(p: string)
    requires |p| > 0
    ensures FileName(p).None? <==> forall i :: 0 <= i < |p| ==> p[i] == '/'
    ensures FileName(p).Some? ==> |FileName(p).value| > 0 && '/' !in FileName(p).value
  {
    var q := DropTrailingSlashes(p);
    DropTrailingSlashesSpec(p);
    if q != [] {
      LastSegmentSpec(q);
      assert q[|q| - 1] in LastSegment(q);
    }
  }

  /** folder.toPath().resolve(name) for a relative name. */
  function Resolve(folder: string, name: string): (r: string)
    ensures |r| >= |name| && r[|r| - |name|..] == name
  {
    if folder == [] then name
    else if folder[|folder| - 1] == '/' then folder + name
    else folder + "/" + name
  }
}
