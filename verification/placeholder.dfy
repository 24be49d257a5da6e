/**
 The placeholder resolver of `EnvAwareProperties.resolveEnv`.

 A placeholder is `${name}` where `name` is one or more characters from
 `[A-Za-z0-9_.-]`. One pass scans its input left to right for non-overlapping
 placeholders and, for each scanned name bound in the lookup map, replaces
 every literal `${name}` in the running result by the bound value. Passes are
 repeated until one changes nothing; after 500 passes without reaching such a
 fixed point the resolver gives up and hands back the original input.
 */
module Placeholder {
  import opened Optional
  import opened Strings

  /** The pass budget (`MAX_DEPTH`). */
  const MaxDepth: nat := 500

  /** A lookup map: the merged sources during construction, the final store at query time. */
  type Env = map<string, string>

  predicate IsNameChar(c: char) {
    'a' <= c <= 'z' || 'A' <= c <= 'Z' || '0' <= c <= '9' || c == '-' || c == '_' || c == '.'
  }

  predicate IsName(n: string) {
    |n| > 0 && forall i :: 0 <= i < |n| ==> IsNameChar(n[i])
  }

  /** The literal placeholder text for `n`. */
  function Token(n: string): string {
    "${" + n + "}"
  }

  /** The length of the longest run of name characters at the start of `s`. */
  function NameRun(s: string): (len: nat)
    ensures len <= |s|
    decreases |s|
  {
    if |s| > 0 && IsNameChar(s[0]) then 1 + NameRun(s[1..]) else 0
  }

  /** The run is made of name characters and cannot be extended. */
  lemma {:induction false} NameRunIsMaximal(s: string)
    ensures forall i :: 0 <= i < NameRun(s) ==> IsNameChar(s[i])
    ensures NameRun(s) < |s| ==> !IsNameChar(s[NameRun(s)])
    decreases |s|
  {
    if |s| > 0 && IsNameChar(s[0]) {
      NameRunIsMaximal(s[1..]);
      forall i | 0 < i < NameRun(s) ensures IsNameChar(s[i]) {
        assert s[i] == s[1..][i - 1];
      }
    }
  }

  /**
   The length of the name of the placeholder that starts `s`, if one does.
   The regular expression's `+` is greedy, and a shorter run of name
   characters is followed by a name character rather than `}`, so only the
   longest run can close a placeholder.
   */
  function NameAt(s: string): (r: Option<nat>)
    ensures r.Some? ==> 3 + r.value <= |s|
  {
    if |s| >= 2 && s[0] == '$' && s[1] == '{' then
      var n := NameRun(s[2..]);
      if n > 0 && 2 + n < |s| && s[2 + n] == '}' then Some(n)
      else None
    else None
  }

  /** A recognised placeholder spells `${name}` with a well-formed name. */
  lemma NameAtIsToken(s: string)
    ensures NameAt(s).Some? ==>
      var n := NameAt(s).value;
      IsName(s[2..2 + n]) && Token(s[2..2 + n]) <= s
  {
    if NameAt(s).Some? {
      var n := NameAt(s).value;
      NameRunIsMaximal(s[2..]);
      var name := s[2..2 + n];
      forall i | 0 <= i < |name| ensures IsNameChar(name[i]) {
        assert name[i] == s[2..][i];
      }
      assert s[..3 + n] == Token(s[2..2 + n]);
    }
  }

  /** The names of the placeholders `Matcher.find` visits, in order; each scan resumes after the previous match. */
  function Scan(s: string): (names: seq<string>)
    decreases |s|
  {
    if |s| == 0 then []
    else match NameAt(s)
      case Some(n) => [s[2..2 + n]] + Scan(s[3 + n..])
      case None => Scan(s[1..])
  }

  /** Applies, in order, the replacement of every scanned name that is bound in `env` to the running result. */
  function Substitute(names: seq<string>, acc: string, env: Env): string
    decreases |names|
  {
    if |names| == 0 then acc
    else
      var n := names[0];
      var next := if n in env then ReplaceAll(acc, Token(n), env[n]) else acc;
      Substitute(names[1..], next, env)
  }

  /** One resolution pass: the names are scanned in the pass input, the replacements act on the running result. */
  function Pass(s: string, env: Env): string {
    Substitute(Scan(s), s, env)
  }

  /** One more pass leaves `s` unchanged. */
  predicate IsFixed(s: string, env: Env) {
    Pass(s, env) == s
  }

  /** The result of `k` passes. */
  function Iterate(s: string, env: Env, k: nat): string {
    if k == 0 then s else Pass(Iterate(s, env, k - 1), env)
  }

  /**
   The inner `resolveEnv(raw, env, depth)`: `None` stands for the
   `CircularReferenceException` thrown once `depth` reaches the budget.
   */
  function ResolveFrom(s: string, env: Env, depth: nat): Option<string>
    decreases MaxDepth - depth
  {
    if depth >= MaxDepth then None
    else
      var next := Pass(s, env);
      if next == s then Some(s) else ResolveFrom(next, env, depth + 1)
  }

  /** The outer `resolveEnv(raw, env)` on a present string: a detected loop yields `raw` itself. */
  function ResolveValue(raw: string, env: Env): string {
    match ResolveFrom(raw, env, 0)
    case Some(r) => r
    case None => raw
  }

  /** `resolveEnv` on a possibly absent string: absence is propagated. */
  function Resolve(raw: Option<string>, env: Env): (r: Option<string>)
    ensures raw.None? <==> r.None?
  {
    match raw
    case None => None
    case Some(s) => Some(ResolveValue(s, env))
  }

  // ---------------------------------------------------------------------
  // The scanner

  /** Some well-formed placeholder occurs in `s`. */
  ghost predicate ContainsToken(s: string) {
    exists n :: IsName(n) && OccursIn(Token(n), s)
  }

  lemma {:induction false} OccursInSuffix(pat: string, s: string, k: nat)
    requires k <= |s|
    requires OccursIn(pat, s[k..])
    ensures OccursIn(pat, s)
    decreases k
  {
    if k > 0 {
      assert s[1..][k - 1..] == s[k..];
      OccursInSuffix(pat, s[1..], k - 1);
    }
  }

  /** Every scanned name is a well-formed name whose placeholder occurs in the input. */
  lemma {:induction false} ScanSound(s: string)
    ensures forall i :: 0 <= i < |Scan(s)| ==> IsName(Scan(s)[i]) && OccursIn(Token(Scan(s)[i]), s)
    decreases |s|
  {
    if |s| > 0 {
      match NameAt(s)
      case Some(n) =>
        ScanSound(s[3 + n..]);
        NameAtIsToken(s);
        forall i | 0 <= i < |Scan(s)|
          ensures OccursIn(Token(Scan(s)[i]), s)
        {
          if i > 0 {
            assert Scan(s)[i] == Scan(s[3 + n..])[i - 1];
            OccursInSuffix(Token(Scan(s)[i]), s, 3 + n);
          }
        }
      case None =>
        ScanSound(s[1..]);
        forall i | 0 <= i < |Scan(s)|
          ensures OccursIn(Token(Scan(s)[i]), s)
        {
          OccursInSuffix(Token(Scan(s)[i]), s, 1);
        }
    }
  }

  /** A placeholder for `n` at the start of `s` is recognised as exactly that placeholder. */
  lemma TokenIsRecognised(n: string, s: string)
    requires IsName(n)
    requires Token(n) <= s
    ensures NameAt(s) == Some(|n|)
  {
    var t := s[2..];
    assert t[..|n|] == n;
    assert t[|n|] == '}';
    NameRunOfName(n, t);
  }

  lemma {:induction false} NameRunOfName(n: string, t: string)
    requires IsName(n)
    requires n <= t
    requires |t| > |n| && !IsNameChar(t[|n|])
    ensures NameRun(t) == |n|
    decreases |n|
  {
    if |n| > 1 {
      assert n[1..] <= t[1..];
      NameRunOfName(n[1..], t[1..]);
    }
  }

  /**
   The scanner reports the name of every well-formed placeholder that occurs
   in its input. Two placeholders never overlap, because only the first
   character of a match is a `$`.
   */
  lemma {:induction false} ScanComplete(n: string, s: string)
    requires IsName(n)
    requires OccursIn(Token(n), s)
    ensures n in Scan(s)
    ensures |Scan(s)| > 0
    decreases |s|
  {
    if Token(n) <= s {
      TokenIsRecognised(n, s);
      TokenSlices(n, s[3 + |n|..]);
      assert s == Token(n) + s[3 + |n|..];
      assert Scan(s) == [n] + Scan(s[3 + |n|..]);
    } else {
      match NameAt(s)
      case None =>
        ScanComplete(n, s[1..]);
      case Some(m) =>
        MatchHasNoDollar(s);
        OccursPastNoDollar(Token(n), s, 3 + m);
        ScanComplete(n, s[3 + m..]);
        assert Scan(s) == [s[2..2 + m]] + Scan(s[3 + m..]);
    }
  }

  /** Inside a recognised `${name}` only its first character is a `$`. */
  lemma MatchHasNoDollar(s: string)
    requires NameAt(s).Some?
    ensures forall i :: 0 < i < 3 + NameAt(s).value ==> s[i] != '$'
  {
    var m := NameAt(s).value;
    NameAtIsToken(s);
    var name := s[2..2 + m];
    forall i | 0 < i < 3 + m ensures s[i] != '$' {
      if 2 <= i < 2 + m {
        assert s[i] == name[i - 2];
      } else {
        assert s[i] == Token(name)[i];
      }
    }
  }

  /**
   An occurrence of a pattern that starts with `$` and is not at the front
   of `s` lies past any stretch of `$`-free characters after the front.
   */
  lemma {:induction false} OccursPastNoDollar(pat: string, s: string, k: nat)
    requires |pat| > 0 && pat[0] == '$'
    requires OccursIn(pat, s) && !(pat <= s)
    requires 1 <= k <= |s|
    requires forall i :: 0 < i < k ==> s[i] != '$'
    ensures OccursIn(pat, s[k..])
    decreases k
  {
    assert |s| > 0;
    var t := s[1..];
    if k > 1 {
      assert t[0] == s[1];
      assert !(pat <= t);
      forall i | 0 < i < k - 1 ensures t[i] != '$' {
        assert t[i] == s[i + 1];
      }
      OccursPastNoDollar(pat, t, k - 1);
      assert t[k - 1..] == s[k..];
    }
  }

  /** The scan is empty exactly when no well-formed placeholder occurs in the input. */
  lemma ScanEmptyIffNoToken(s: string)
    ensures |Scan(s)| == 0 <==> !ContainsToken(s)
  {
    if |Scan(s)| > 0 {
      ScanSound(s);
      assert IsName(Scan(s)[0]) && OccursIn(Token(Scan(s)[0]), s);
    }
    if ContainsToken(s) {
      var n :| IsName(n) && OccursIn(Token(n), s);
      ScanComplete(n, s);
    }
  }

  lemma ScanTokenFirst(n: string, rest: string)
    requires IsName(n)
    ensures Scan(Token(n) + rest) == [n] + Scan(rest)
  {
    TokenSlices(n, rest);
    TokenIsRecognised(n, Token(n) + rest);
  }

  /** Where the name and the text after a leading placeholder sit. */
  lemma TokenSlices(n: string, rest: string)
    ensures var s := Token(n) + rest;
      Token(n) <= s && s[2..2 + |n|] == n && s[3 + |n|..] == rest
  {
    var s := Token(n) + rest;
    assert s == "${" + n + ("}" + rest);
  }

  lemma {:induction false} NoDollarNoScan(s: string)
    requires '$' !in s
    ensures Scan(s) == []
    decreases |s|
  {
    if |s| > 0 {
      assert s[0] != '$';
      assert '$' !in s[1..] by {
        forall i | 0 <= i < |s[1..]| ensures s[1..][i] != '$' {
          assert s[1..][i] == s[i + 1];
        }
      }
      NoDollarNoScan(s[1..]);
    }
  }

  lemma {:induction false} NoDollarNoOccurrence(n: string, s: string)
    requires '$' !in s
    ensures !OccursIn(Token(n), s)
    decreases |s|
  {
    if |s| > 0 {
      assert s[0] != '$';
      assert '$' !in s[1..] by {
        forall i | 0 <= i < |s[1..]| ensures s[1..][i] != '$' {
          assert s[1..][i] == s[i + 1];
        }
      }
      NoDollarNoOccurrence(n, s[1..]);
    }
  }

  lemma TokenHeadIsUnique(n: string)
    requires IsName(n)
    ensures HeadIsUnique(Token(n))
  {
    var t := Token(n);
    forall i | 0 < i < |t| ensures t[i] != t[0] {
      if 2 <= i < |t| - 1 {
        assert t[i] == n[i - 2];
      }
    }
  }

  // ---------------------------------------------------------------------
  // One pass

  /** A pass only acts through bound names: if no scanned name is bound, the input is a fixed point. */
  lemma {:induction false} SubstituteUnbound(names: seq<string>, acc: string, env: Env)
    requires forall i :: 0 <= i < |names| ==> names[i] !in env
    ensures Substitute(names, acc, env) == acc
    decreases |names|
  {
    if |names| > 0 {
      SubstituteUnbound(names[1..], acc, env);
    }
  }

  /** A string none of whose placeholders names a bound key is left unchanged by resolution. */
  lemma NoBoundTokenIsFixed(s: string, env: Env)
    requires forall i :: 0 <= i < |Scan(s)| ==> Scan(s)[i] !in env
    ensures IsFixed(s, env)
    ensures Resolve(Some(s), env) == Some(s)
  {
    SubstituteUnbound(Scan(s), s, env);
  }

  /** A placeholder-free string is left unchanged by resolution. */
  lemma NoTokenIsFixed(s: string, env: Env)
    requires !ContainsToken(s)
    ensures Resolve(Some(s), env) == Some(s)
  {
    ScanEmptyIffNoToken(s);
    NoBoundTokenIsFixed(s, env);
  }

  /** A lone bound placeholder is replaced by its value in one pass. */
  lemma PassOfToken(n: string, env: Env)
    requires IsName(n) && n in env
    ensures Pass(Token(n), env) == env[n]
  {
    var t := Token(n);
    var e: string := [];
    ScanTokenFirst(n, e);
    assert t + e == t;
    assert Scan(e) == [];
    assert Scan(t) == [n];
    TokenHeadIsUnique(n);
    ReplaceAllSplits(e, t, e, env[n]);
    assert e + t + e == t;
    assert ReplaceAll(e, t, env[n]) == e;
    assert ReplaceAll(t, t, env[n]) == env[n];
    SubstituteOne(n, t, env);
  }

  lemma SubstituteOne(n: string, acc: string, env: Env)
    ensures Substitute([n], acc, env) == if n in env then ReplaceAll(acc, Token(n), env[n]) else acc
  {
    assert [n][1..] == [];
  }

  /** A bound placeholder followed by placeholder-free text: one pass substitutes the value in front of the text. */
  lemma PassOfTokenThenPlain(n: string, suffix: string, env: Env)
    requires IsName(n) && n in env && '$' !in suffix
    ensures Pass(Token(n) + suffix, env) == env[n] + suffix
  {
    var raw := Token(n) + suffix;
    var e: string := [];
    assert Scan(raw) == [n] by {
      ScanTokenFirst(n, suffix);
      NoDollarNoScan(suffix);
    }
    SubstituteOne(n, raw, env);
    TokenHeadIsUnique(n);
    assert ReplaceAll(suffix, Token(n), env[n]) == suffix by {
      NoDollarNoOccurrence(n, suffix);
      ReplaceAllAbsent(suffix, Token(n), env[n]);
    }
    ReplaceAllSplits(e, Token(n), suffix, env[n]);
    assert e + Token(n) + suffix == raw;
    assert ReplaceAll(e, Token(n), env[n]) == e;
  }

  /**
   In one pass a bound name replaces every copy of its placeholder in the
   running result, not only the copy the scanner stopped at.
   */
  lemma PassReplacesEveryCopy(n: string, x: string, y: string, env: Env)
    requires IsName(n) && n in env
    requires '$' !in x && '$' !in y && '$' !in env[n]
    ensures Pass(Token(n) + x + Token(n) + y, env) == env[n] + x + env[n] + y
  {
    var t := Token(n);
    var v := env[n];
    var s := t + x + t + y;
    ScanTwoCopiesGrouped(n, x, y);
    ReplaceTwoCopies(n, x, y, v);
    SecondReplaceIsIdle(n, x, y, v);
    SubstituteTwice(n, s, env);
  }

  lemma SubstituteTwice(n: string, acc: string, env: Env)
    requires n in env
    ensures Substitute([n, n], acc, env) == ReplaceAll(ReplaceAll(acc, Token(n), env[n]), Token(n), env[n])
  {
    var once := ReplaceAll(acc, Token(n), env[n]);
    assert Substitute([n, n], acc, env) == Substitute([n], once, env) by {
      assert [n, n][1..] == [n];
    }
    SubstituteOne(n, once, env);
  }

  /** After every copy of `${n}` has been replaced by a placeholder-free value, replacing again changes nothing. */
  lemma SecondReplaceIsIdle(n: string, x: string, y: string, v: string)
    requires IsName(n) && '$' !in x && '$' !in y && '$' !in v
    ensures ReplaceAll(v + x + v + y, Token(n), v) == v + x + v + y
  {
    NoDollarConcat(v, x);
    NoDollarConcat(v + x, v);
    NoDollarConcat(v + x + v, y);
    var once := v + x + v + y;
    NoDollarNoOccurrence(n, once);
    ReplaceAllAbsent(once, Token(n), v);
  }

  lemma ScanTwoCopiesGrouped(n: string, x: string, y: string)
    requires IsName(n)
    requires '$' !in x && '$' !in y
    ensures Scan(Token(n) + x + Token(n) + y) == [n, n]
  {
    Regroup(Token(n), x, Token(n), y);
    ScanTwoCopies(n, x, y);
  }


  lemma ScanTokenThenPlain(n: string, y: string)
    requires IsName(n) && '$' !in y
    ensures Scan(Token(n) + y) == [n]
  {
    ScanTokenFirst(n, y);
    NoDollarNoScan(y);
  }

  lemma ScanTwoCopies(n: string, x: string, y: string)
    requires IsName(n)
    requires '$' !in x && '$' !in y
    ensures Scan(Token(n) + (x + (Token(n) + y))) == [n, n]
  {
    ScanTokenThenPlain(n, y);
    ScanAfterNoDollar(x, Token(n) + y);
    ScanTokenFirst(n, x + (Token(n) + y));
  }

  lemma ReplaceTwoCopies(n: string, x: string, y: string, v: string)
    requires IsName(n)
    requires '$' !in x && '$' !in y
    ensures ReplaceAll(Token(n) + x + Token(n) + y, Token(n), v) == v + x + v + y
  {
    var t := Token(n);
    ReplaceOneCopy(n, x, y, v);
    ReplaceLeadingCopy(n, x + t + y, v);
    Regroup(t, x, t, y);
    Regroup(v, x, v, y);
  }

  /** A single placeholder between placeholder-free texts is the only thing replaced. */
  lemma ReplaceOneCopy(n: string, x: string, y: string, v: string)
    requires IsName(n)
    requires '$' !in x && '$' !in y
    ensures ReplaceAll(x + Token(n) + y, Token(n), v) == x + v + y
  {
    var t := Token(n);
    TokenHeadIsUnique(n);
    NoDollarNoOccurrence(n, x);
    NoDollarNoOccurrence(n, y);
    ReplaceAllAbsent(x, t, v);
    ReplaceAllAbsent(y, t, v);
    ReplaceAllSplits(x, t, y, v);
  }

  /** A placeholder at the very front is replaced and the rest is replaced on its own. */
  lemma ReplaceLeadingCopy(n: string, rest: string, v: string)
    requires IsName(n)
    ensures ReplaceAll(Token(n) + rest, Token(n), v) == v + ReplaceAll(rest, Token(n), v)
  {
    var t := Token(n);
    var e: string := [];
    TokenHeadIsUnique(n);
    ReplaceAllSplits(e, t, rest, v);
    assert e + t + rest == t + rest;
  }


  lemma NoDollarConcat(a: string, b: string)
    requires '$' !in a && '$' !in b
    ensures '$' !in a + b
  {
  }

  lemma {:induction false} ScanAfterNoDollar(x: string, rest: string)
    requires '$' !in x
    ensures Scan(x + rest) == Scan(rest)
    decreases |x|
  {
    if |x| > 0 {
      var s := x + rest;
      assert s[0] == x[0] && s[0] != '$';
      assert s[1..] == x[1..] + rest;
      assert '$' !in x[1..] by {
        forall i | 0 <= i < |x[1..]| ensures x[1..][i] != '$' {
          assert x[1..][i] == x[i + 1];
        }
      }
      assert NameAt(s) == None;
      ScanAfterNoDollar(x[1..], rest);
    } else {
      assert x + rest == rest;
    }
  }

  // ---------------------------------------------------------------------
  // Repeated passes

  lemma {:induction false} FixedPointStays(s: string, env: Env, d: nat, k: nat)
    requires d <= k
    requires IsFixed(Iterate(s, env, d), env)
    ensures Iterate(s, env, k) == Iterate(s, env, d)
    decreases k - d
  {
    if d < k {
      FixedPointStays(s, env, d, k - 1);
    }
  }

  lemma {:induction false} FromReachesFixedPoint(s: string, env: Env, d: nat, k: nat)
    requires d <= k < MaxDepth
    requires IsFixed(Iterate(s, env, k), env)
    ensures ResolveFrom(Iterate(s, env, d), env, d) == Some(Iterate(s, env, k))
    decreases k - d
  {
    if IsFixed(Iterate(s, env, d), env) {
      FixedPointStays(s, env, d, k);
      SettledStep(s, env, d);
    } else {
      FromReachesFixedPoint(s, env, d + 1, k);
      UnsettledStep(s, env, d);
    }
  }

  /** A pass that leaves the text alone ends resolution with that text. */
  lemma SettledStep(s: string, env: Env, d: nat)
    requires d < MaxDepth && IsFixed(Iterate(s, env, d), env)
    ensures ResolveFrom(Iterate(s, env, d), env, d) == Some(Iterate(s, env, d))
  {
  }

  /** Pass `k` starting from `s` still changes the text. */
  predicate Unsettled(s: string, env: Env, k: nat) {
    !IsFixed(Iterate(s, env, k), env)
  }

  lemma {:induction false} FromGivesUp(s: string, env: Env, d: nat)
    requires d <= MaxDepth
    requires forall k :: d <= k < MaxDepth ==> Unsettled(s, env, k)
    ensures ResolveFrom(Iterate(s, env, d), env, d) == None
    decreases MaxDepth - d
  {
    if d < MaxDepth {
      FromGivesUp(s, env, d + 1);
      assert Unsettled(s, env, d);
      UnsettledStep(s, env, d);
    }
  }

  /** A pass that changes the text hands resolution on to the next depth with the next iterate. */
  lemma UnsettledStep(s: string, env: Env, d: nat)
    requires d < MaxDepth && !IsFixed(Iterate(s, env, d), env)
    ensures ResolveFrom(Iterate(s, env, d), env, d) == ResolveFrom(Iterate(s, env, d + 1), env, d + 1)
  {
  }

  /** If some pass count below the budget reaches a fixed point, resolution returns that fixed point. */
  lemma ResolveReachesFixedPoint(raw: string, env: Env, k: nat)
    requires k < MaxDepth
    requires IsFixed(Iterate(raw, env, k), env)
    ensures ResolveValue(raw, env) == Iterate(raw, env, k)
  {
    FromReachesFixedPoint(raw, env, 0, k);
  }

  /** If no pass count below the budget reaches a fixed point, resolution returns the raw input unchanged. */
  lemma ResolveGivesUp(raw: string, env: Env)
    requires forall k :: 0 <= k < MaxDepth ==> !IsFixed(Iterate(raw, env, k), env)
    ensures ResolveValue(raw, env) == raw
  {
    assert forall k :: 0 <= k < MaxDepth ==> Unsettled(raw, env, k);
    FromGivesUp(raw, env, 0);
  }

  /**
   Resolution always ends within the pass budget, and either it found a
   fixed point after fewer than `MaxDepth` passes and returns it, or no such
   point exists within the budget and it returns the raw input.
   */
  lemma ResolveOutcome(raw: string, env: Env)
    ensures || (exists k :: 0 <= k < MaxDepth && IsFixed(Iterate(raw, env, k), env)
                  && ResolveValue(raw, env) == Iterate(raw, env, k))
            || ((forall k :: 0 <= k < MaxDepth ==> !IsFixed(Iterate(raw, env, k), env))
                  && ResolveValue(raw, env) == raw)
  {
    if k :| 0 <= k < MaxDepth && IsFixed(Iterate(raw, env, k), env) {
      ResolveReachesFixedPoint(raw, env, k);
    } else {
      ResolveGivesUp(raw, env);
    }
  }

  /** Resolution of a present string is a fixed point of one more pass, or the input itself. */
  lemma ResolveSettlesOrGivesUp(raw: string, env: Env)
    ensures IsFixed(ResolveValue(raw, env), env) || ResolveValue(raw, env) == raw
  {
    ResolveOutcome(raw, env);
  }

  /** A fixed point resolves to itself. */
  lemma ResolveFixedPoint(s: string, env: Env)
    requires IsFixed(s, env)
    ensures ResolveValue(s, env) == s
  {
    ResolveReachesFixedPoint(s, env, 0);
  }

  /** Resolving twice is resolving once. */
  lemma ResolveIdempotent(raw: string, env: Env)
    ensures ResolveValue(ResolveValue(raw, env), env) == ResolveValue(raw, env)
  {
    ResolveSettlesOrGivesUp(raw, env);
    if IsFixed(ResolveValue(raw, env), env) {
      ResolveFixedPoint(ResolveValue(raw, env), env);
    }
  }

  /** Absent input resolves to absent output. */
  lemma ResolveAbsent(env: Env)
    ensures Resolve(None, env) == None
  {
  }

  // ---------------------------------------------------------------------
  // Circular and nested references

  /** With `a=${b}` and `b=${a}`, one pass turns either placeholder into the other. */
  lemma CircularStep(a: string, b: string, env: Env)
    requires IsName(a) && IsName(b)
    requires a in env && b in env && env[a] == Token(b) && env[b] == Token(a)
    ensures Pass(Token(b), env) == Token(a) && Pass(Token(a), env) == Token(b)
  {
    PassOfToken(a, env);
    PassOfToken(b, env);
  }

  /** Two strings that one pass turns into each other: every number of passes lands on one of the two. */
  lemma {:induction false} Alternates(x: string, y: string, env: Env, k: nat)
    requires Pass(x, env) == y && Pass(y, env) == x
    ensures Iterate(x, env, k) == x || Iterate(x, env, k) == y
  {
    if k > 0 {
      Alternates(x, y, env, k - 1);
    }
  }

  lemma TokenInjective(a: string, b: string)
    ensures Token(a) == Token(b) ==> a == b
  {
    if Token(a) == Token(b) {
      assert a == Token(a)[2..|Token(a)| - 1];
      assert b == Token(b)[2..|Token(b)| - 1];
    }
  }

  lemma NeverFixed(a: string, b: string, env: Env, k: nat)
    requires IsName(a) && IsName(b) && Token(a) != Token(b)
    requires a in env && b in env && env[a] == Token(b) && env[b] == Token(a)
    ensures !IsFixed(Iterate(Token(b), env, k), env)
  {
    CircularStep(a, b, env);
    Alternates(Token(b), Token(a), env, k);
  }

  /**
   Two names bound to each other's placeholder (`a=${b}`, `b=${a}`): the
   passes alternate forever, so resolving `${b}` gives up and returns
   `${b}` verbatim instead of failing.
   */
  lemma CircularReferenceKeepsRaw(a: string, b: string, env: Env)
    requires IsName(a) && IsName(b) && a != b
    requires a in env && b in env && env[a] == Token(b) && env[b] == Token(a)
    ensures ResolveValue(Token(b), env) == Token(b)
  {
    TokenInjective(a, b);
    forall k | 0 <= k < MaxDepth
      ensures !IsFixed(Iterate(Token(b), env, k), env)
    {
      NeverFixed(a, b, env, k);
    }
    ResolveGivesUp(Token(b), env);
  }

  /**
   A placeholder whose name is itself a placeholder (`${${a}}` with `a=b`
   and `b=v`) resolves in two passes: first to `${b}`, then to `v`.
   */
  lemma NestedReferenceResolves(a: string, b: string, env: Env)
    requires IsName(a) && IsName(b)
    requires a in env && env[a] == b && b in env && '$' !in env[b]
    ensures ResolveValue(Token(Token(a)), env) == env[b]
  {
    var t := Token(a);
    var s := Token(t);
    assert Scan(s) == [a] by {
      ScanNested(a);
    }
    assert ReplaceAll(s, t, b) == Token(b) by {
      ReplaceNested(a, b);
    }
    assert Pass(s, env) == Token(b) by {
      SubstituteOne(a, s, env);
    }
    PassOfToken(b, env);
    NoDollarNoScan(env[b]);
    NoBoundTokenIsFixed(env[b], env);
    assert Iterate(s, env, 1) == Token(b) by {
      assert Iterate(s, env, 0) == s;
    }
    assert Iterate(s, env, 2) == env[b];
    ResolveReachesFixedPoint(s, env, 2);
  }

  /** The outer `${` of `${${a}}` is not followed by a name character, so the scan starts at the inner placeholder. */
  lemma ScanNested(a: string)
    requires IsName(a)
    ensures Scan(Token(Token(a))) == [a]
  {
    var t := Token(a);
    var s := Token(t);
    assert s[2..][0] == '$';
    assert NameAt(s) == None;
    assert s[1..] == "{" + t + "}";
    assert NameAt(s[1..]) == None;
    assert s[1..][1..] == t + "}";
    ScanTokenFirst(a, "}");
    NoDollarNoScan("}");
  }

  lemma ReplaceNested(a: string, b: string)
    requires IsName(a)
    ensures ReplaceAll(Token(Token(a)), Token(a), b) == Token(b)
  {
    var t := Token(a);
    TokenHeadIsUnique(a);
    ReplaceAllSplits("${", t, "}", b);
    assert "${" + t + "}" == Token(t);
    assert ReplaceAll("}", t, b) == "}" by {
      NoDollarNoOccurrence(a, "}");
      ReplaceAllAbsent("}", t, b);
    }
    assert ReplaceAll("${", t, b) == "${" by {
      assert !OccursIn(t, "${") by {
        assert !(t <= "${");
        assert !(t <= "{");
        assert !OccursIn(t, "");
      }
      ReplaceAllAbsent("${", t, b);
    }
  }
}
