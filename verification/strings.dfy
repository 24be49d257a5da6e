/**
 String operations the resolver and the key translators are built from:
 literal search, literal replace-all (Java's `String.replaceAll` with a quoted
 pattern and a quoted replacement), single-character replacement and ASCII
 lower-casing.
 */
module Strings {

  /** `pat` occurs in `s` as a contiguous slice. */
  predicate OccursIn(pat: string, s: string)
    decreases |s|
  {
    pat <= s || (|s| > 0 && OccursIn(pat, s[1..]))
  }

  /**
   Replaces every occurrence of the non-empty literal `pat` in `s` by `rep`,
   matching left to right without overlap; the replacement text is never
   re-scanned.
   */
  function ReplaceAll(s: string, pat: string, rep: string): string
    requires |pat| > 0
    decreases |s|
  {
    if |s| == 0 then []
    else if pat <= s then rep + ReplaceAll(s[|pat|..], pat, rep)
    else [s[0]] + ReplaceAll(s[1..], pat, rep)
  }

  /** The first character of `pat` appears nowhere else in it, so two occurrences never overlap. */
  predicate HeadIsUnique(pat: string) {
    |pat| > 0 && forall i :: 0 < i < |pat| ==> pat[i] != pat[0]
  }

  /** A string in which the pattern does not occur is left alone. */
  lemma {:induction false} ReplaceAllAbsent(s: string, pat: string, rep: string)
    requires |pat| > 0
    requires !OccursIn(pat, s)
    ensures ReplaceAll(s, pat, rep) == s
    decreases |s|
  {
    if |s| > 0 {
      ReplaceAllAbsent(s[1..], pat, rep);
      assert s == [s[0]] + s[1..];
    }
  }

  /**
   Every occurrence is replaced, not only the first: when the pattern cannot
   overlap itself, replacing in `x + pat + y` is replacing in `x`, then the
   occurrence in the middle, then replacing in `y`.
   */
  lemma {:induction false} ReplaceAllSplits(x: string, pat: string, y: string, rep: string)
    requires HeadIsUnique(pat)
    ensures ReplaceAll(x + pat + y, pat, rep) == ReplaceAll(x, pat, rep) + rep + ReplaceAll(y, pat, rep)
    decreases |x|
  {
    if |x| == 0 {
      SplitsAtStart(x, pat, y, rep);
    } else if pat <= x {
      ReplaceAllSplits(x[|pat|..], pat, y, rep);
      SplitsAfterMatch(x, pat, y, rep);
    } else {
      ReplaceAllSplits(x[1..], pat, y, rep);
      NoMatchAcross(x, pat, y);
      SplitsAfterSkip(x, pat, y, rep);
    }
  }

  /** Concatenation is associative, in the groupings the proofs need. */
  lemma Regroup(a: string, b: string, c: string, d: string)
    ensures a + b + c == a + (b + c)
    ensures a + (b + c + d) == a + b + c + d
    ensures a + (b + (c + d)) == a + b + c + d
  {
  }

  /** One step of `ReplaceAll` at an occurrence of the pattern. */
  lemma ReplaceAllAtMatch(s: string, pat: string, rep: string)
    requires |pat| > 0 && pat <= s
    ensures ReplaceAll(s, pat, rep) == rep + ReplaceAll(s[|pat|..], pat, rep)
  {
  }

  /** One step of `ReplaceAll` past a character that does not start an occurrence. */
  lemma ReplaceAllPastChar(s: string, pat: string, rep: string)
    requires |pat| > 0 && |s| > 0 && !(pat <= s)
    ensures ReplaceAll(s, pat, rep) == [s[0]] + ReplaceAll(s[1..], pat, rep)
  {
  }

  lemma SplitsAtStart(x: string, pat: string, y: string, rep: string)
    requires |pat| > 0 && |x| == 0
    ensures ReplaceAll(x + pat + y, pat, rep) == ReplaceAll(x, pat, rep) + rep + ReplaceAll(y, pat, rep)
  {
    var s := x + pat + y;
    assert s == pat + y;
    assert s[|pat|..] == y;
    ReplaceAllAtMatch(s, pat, rep);
  }

  lemma MatchInFront(x: string, pat: string, y: string, rep: string)
    requires |pat| > 0 && pat <= x
    ensures ReplaceAll(x + pat + y, pat, rep) == rep + ReplaceAll(x[|pat|..] + pat + y, pat, rep)
  {
    var s := x + pat + y;
    assert pat <= s && s[|pat|..] == x[|pat|..] + pat + y by {
      assert s == x + (pat + y);
    }
    ReplaceAllAtMatch(s, pat, rep);
  }

  /** The step of `ReplaceAllSplits` when `x` itself starts with the pattern. */
  lemma SplitsAfterMatch(x: string, pat: string, y: string, rep: string)
    requires |pat| > 0 && pat <= x
    requires ReplaceAll(x[|pat|..] + pat + y, pat, rep) == ReplaceAll(x[|pat|..], pat, rep) + rep + ReplaceAll(y, pat, rep)
    ensures ReplaceAll(x + pat + y, pat, rep) == ReplaceAll(x, pat, rep) + rep + ReplaceAll(y, pat, rep)
  {
    MatchInFront(x, pat, y, rep);
    ReplaceAllAtMatch(x, pat, rep);
    Regroup(rep, ReplaceAll(x[|pat|..], pat, rep), rep, ReplaceAll(y, pat, rep));
  }

  /** An occurrence cannot start inside `x` and run into the copy of the pattern that follows it. */
  lemma NoMatchAcross(x: string, pat: string, y: string)
    requires HeadIsUnique(pat) && |x| > 0 && !(pat <= x)
    ensures !(pat <= x + pat + y)
  {
    var s := x + pat + y;
    if |x| >= |pat| {
      assert s[..|pat|] == x[..|pat|];
    } else {
      assert s[|x|] == pat[0];
      assert pat[|x|] != pat[0];
    }
  }

  lemma CharInFront(x: string, pat: string, y: string, rep: string)
    requires |pat| > 0 && |x| > 0 && !(pat <= x + pat + y)
    ensures ReplaceAll(x + pat + y, pat, rep) == [x[0]] + ReplaceAll(x[1..] + pat + y, pat, rep)
  {
    var s := x + pat + y;
    assert s[0] == x[0] && s[1..] == x[1..] + pat + y;
    ReplaceAllPastChar(s, pat, rep);
  }

  /** The step of `ReplaceAllSplits` when `x` does not start with the pattern. */
  lemma SplitsAfterSkip(x: string, pat: string, y: string, rep: string)
    requires |pat| > 0 && |x| > 0 && !(pat <= x) && !(pat <= x + pat + y)
    requires ReplaceAll(x[1..] + pat + y, pat, rep) == ReplaceAll(x[1..], pat, rep) + rep + ReplaceAll(y, pat, rep)
    ensures ReplaceAll(x + pat + y, pat, rep) == ReplaceAll(x, pat, rep) + rep + ReplaceAll(y, pat, rep)
  {
    CharInFront(x, pat, y, rep);
    ReplaceAllPastChar(x, pat, rep);
    Regroup([x[0]], ReplaceAll(x[1..], pat, rep), rep, ReplaceAll(y, pat, rep));
  }

  /** Java's `String.replace(char, char)`: every `from` becomes `to`. */
  function ReplaceChar(s: string, from: char, to: char): (r: string)
    ensures |r| == |s|
    ensures forall i :: 0 <= i < |s| ==> r[i] == (if s[i] == from then to else s[i])
    ensures from != to ==> from !in r
    ensures from !in s ==> r == s
  {
    seq(|s|, i requires 0 <= i < |s| => if s[i] == from then to else s[i])
  }

  predicate IsUpperAscii(c: char) {
    'A' <= c <= 'Z'
  }

  function LowerAsciiChar(c: char): (d: char)
    ensures !IsUpperAscii(d)
    ensures IsUpperAscii(c) ==> d as int == c as int + 32
    ensures !IsUpperAscii(c) ==> d == c
  {
    if IsUpperAscii(c) then (c as int + 32) as char else c
  }

  /** `toLowerCase` restricted to ASCII letters. */
  function LowerAscii(s: string): (r: string)
    ensures |r| == |s|
    ensures forall i :: 0 <= i < |s| ==> r[i] == LowerAsciiChar(s[i])
    ensures forall i :: 0 <= i < |r| ==> !IsUpperAscii(r[i])
    ensures (forall i :: 0 <= i < |s| ==> !IsUpperAscii(s[i])) ==> r == s
  {
    seq(|s|, i requires 0 <= i < |s| => LowerAsciiChar(s[i]))
  }
}
