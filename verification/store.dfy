/**
 Construction and querying of an `EnvAwareProperties` store.

 Construction merges the primary sources in order (the first source that
 defines a key supplies its raw value), then lets the fallback sources fill
 in keys no primary source defines. Every key's raw value is resolved
 against that fixed merged map and stored under the original key; finally
 the keys only a fallback source defined are removed again, so fallbacks
 serve as placeholder targets without becoming entries of the store.
 */
module Store {
  import opened Optional
  import opened Strings
  import opened Placeholder

  /** One key/value source: an override set, a parsed file, the environment, the system properties. */
  type Source = map<string, string>

  /** `putIfAbsent` of every entry of `next` into `acc`. */
  function Absorb(acc: Source, next: Source): (r: Source)
    ensures r.Keys == acc.Keys + next.Keys
    ensures forall k :: k in acc ==> r[k] == acc[k]
    ensures forall k :: k in next && k !in acc ==> r[k] == next[k]
    ensures next.Keys <= acc.Keys ==> r == acc
    ensures acc == map[] ==> r == next
  {
    map k | k in acc.Keys + next.Keys :: if k in acc then acc[k] else next[k]
  }

  /** Absorbs the sources into `acc` one after the other. */
  function MergeInto(acc: Source, sources: seq<Source>): Source
    decreases |sources|
  {
    if |sources| == 0 then acc else MergeInto(Absorb(acc, sources[0]), sources[1..])
  }

  /** The first-wins merge of a list of sources. */
  function Merge(sources: seq<Source>): Source {
    MergeInto(map[], sources)
  }

  /** Every key any of the sources defines. */
  function UnionKeys(sources: seq<Source>): set<string>
    decreases |sources|
  {
    if |sources| == 0 then {} else sources[0].Keys + UnionKeys(sources[1..])
  }

  /** `sources[i]` is the earliest source that defines `k`. */
  predicate FirstDefines(sources: seq<Source>, i: int, k: string) {
    0 <= i < |sources| && k in sources[i] && forall j :: 0 <= j < i ==> k !in sources[j]
  }

  /**
   The `initialize` step: the merged map resolves every key's value, the
   result is indexed by the original key, and keys that only fallback
   sources defined are then dropped. The resolved key that `initialize`
   computes is never used, so it does not appear here.
   */
  function Build(primaries: seq<Source>, fallbacks: seq<Source>): Source {
    var base := Merge(primaries);
    var merged := MergeInto(base, fallbacks);
    var extra := merged.Keys - base.Keys;
    var resolved := map k | k in merged :: ResolveValue(merged[k], merged);
    resolved - extra
  }

  /**
   `getPropertyResolve(key, defaultValue)`: the key is resolved against the
   store, the resolved key is looked up in the store, and the value found is
   resolved against the store again.
   */
  function GetPropertyResolve(store: Source, key: string, default: Option<string>): Option<string> {
    var keyResolved := ResolveValue(key, store);
    var valueRaw := if keyResolved in store then Some(store[keyResolved]) else None;
    match Resolve(valueRaw, store)
    case None => default
    case Some(v) => Some(v)
  }

  /** The partition prefix, with a `.` appended unless it already ends in one. */
  function DotTerminated(prefix: string): (p: string)
    ensures |p| > 0 && p[|p| - 1] == '.'
    ensures prefix <= p && |p| <= |prefix| + 1
    ensures |prefix| > 0 && prefix[|prefix| - 1] == '.' ==> p == prefix
  {
    if |prefix| > 0 && prefix[|prefix| - 1] == '.' then prefix else prefix + "."
  }

  /** The keys of `store` that start with `p`, with `p` removed. */
  function StrippedKeys(store: Source, p: string): set<string> {
    set k | k in store && p <= k :: k[|p|..]
  }

  /** The entries of `store` under `p`, re-keyed without `p`. */
  function Strip(store: Source, p: string): Source {
    map s | s in StrippedKeys(store, p) && p + s in store :: store[p + s]
  }

  /**
   `partition(prefix)`: the stripped entries are handed to the public
   constructor again, whose fallback sources are given here explicitly.
   */
  function Partition(store: Source, prefix: string, fallbacks: seq<Source>): Source {
    Build([Strip(store, DotTerminated(prefix))], fallbacks)
  }

  // ---------------------------------------------------------------------
  // Merging

  lemma {:induction false} MergeIntoKeys(acc: Source, sources: seq<Source>)
    ensures MergeInto(acc, sources).Keys == acc.Keys + UnionKeys(sources)
    decreases |sources|
  {
    if |sources| > 0 {
      MergeIntoKeys(Absorb(acc, sources[0]), sources[1..]);
    }
  }

  lemma {:induction false} MergeIntoKeepsEarlier(acc: Source, sources: seq<Source>, k: string)
    requires k in acc
    ensures k in MergeInto(acc, sources) && MergeInto(acc, sources)[k] == acc[k]
    decreases |sources|
  {
    if |sources| > 0 {
      MergeIntoKeepsEarlier(Absorb(acc, sources[0]), sources[1..], k);
    }
  }

  lemma {:induction false} MergeIntoFirstWins(acc: Source, sources: seq<Source>, i: int, k: string)
    requires k !in acc
    requires FirstDefines(sources, i, k)
    ensures k in MergeInto(acc, sources) && MergeInto(acc, sources)[k] == sources[i][k]
    decreases |sources|
  {
    var next := Absorb(acc, sources[0]);
    if i == 0 {
      MergeIntoKeepsEarlier(next, sources[1..], k);
    } else {
      assert k !in sources[0];
      assert FirstDefines(sources[1..], i - 1, k) by {
        forall j | 0 <= j < i - 1 ensures k !in sources[1..][j] {
          assert sources[1..][j] == sources[j + 1];
        }
      }
      MergeIntoFirstWins(next, sources[1..], i - 1, k);
    }
  }

  /** The merged key set is exactly the union of the sources' key sets. */
  lemma MergeKeys(sources: seq<Source>)
    ensures Merge(sources).Keys == UnionKeys(sources)
  {
    MergeIntoKeys(map[], sources);
  }

  /** Precedence: the earliest source that defines a key supplies its merged value. */
  lemma MergeFirstWins(sources: seq<Source>, i: int, k: string)
    requires FirstDefines(sources, i, k)
    ensures k in Merge(sources) && Merge(sources)[k] == sources[i][k]
  {
    MergeIntoFirstWins(map[], sources, i, k);
  }

  lemma {:induction false} MergeIntoAppend(acc: Source, a: seq<Source>, b: seq<Source>)
    ensures MergeInto(acc, a + b) == MergeInto(MergeInto(acc, a), b)
    decreases |a|
  {
    if |a| > 0 {
      assert (a + b)[0] == a[0];
      assert (a + b)[1..] == a[1..] + b;
      MergeIntoAppend(Absorb(acc, a[0]), a[1..], b);
    } else {
      assert a + b == b;
    }
  }

  lemma {:induction false} UnionKeysAppend(a: seq<Source>, b: seq<Source>)
    ensures UnionKeys(a + b) == UnionKeys(a) + UnionKeys(b)
    decreases |a|
  {
    if |a| > 0 {
      assert (a + b)[0] == a[0];
      assert (a + b)[1..] == a[1..] + b;
      UnionKeysAppend(a[1..], b);
    } else {
      assert a + b == b;
    }
  }

  lemma {:induction false} FirstDefinerExists(sources: seq<Source>, k: string) returns (i: int)
    requires k in UnionKeys(sources)
    ensures FirstDefines(sources, i, k)
    decreases |sources|
  {
    if k in sources[0] {
      i := 0;
    } else {
      var j := FirstDefinerExists(sources[1..], k);
      i := j + 1;
      forall m | 0 <= m < i ensures k !in sources[m] {
        if m > 0 {
          assert sources[m] == sources[1..][m - 1];
        }
      }
    }
  }

  lemma {:induction false} UnionKeysMember(sources: seq<Source>, i: int, k: string)
    requires 0 <= i < |sources| && k in sources[i]
    ensures k in UnionKeys(sources)
    decreases |sources|
  {
    if i > 0 {
      assert sources[i] == sources[1..][i - 1];
      UnionKeysMember(sources[1..], i - 1, k);
    }
  }

  // ---------------------------------------------------------------------
  // Construction

  /** The store's key set is exactly the union of the primary sources' key sets; fallback-only keys are gone. */
  lemma BuildKeys(primaries: seq<Source>, fallbacks: seq<Source>)
    ensures Build(primaries, fallbacks).Keys == UnionKeys(primaries)
  {
    var base := Merge(primaries);
    MergeKeys(primaries);
    MergeIntoKeys(base, fallbacks);
  }

  /** The merged lookup map is the first-wins merge of the primaries followed by the fallbacks. */
  lemma MergedIsMergeOfAll(primaries: seq<Source>, fallbacks: seq<Source>)
    ensures MergeInto(Merge(primaries), fallbacks) == Merge(primaries + fallbacks)
  {
    MergeIntoAppend(map[], primaries, fallbacks);
  }

  /** Every stored value is the resolution of the key's merged raw value against the whole merged map. */
  lemma BuildValue(primaries: seq<Source>, fallbacks: seq<Source>, k: string)
    requires k in UnionKeys(primaries)
    ensures k in Build(primaries, fallbacks) && k in Merge(primaries + fallbacks)
    ensures Build(primaries, fallbacks)[k]
         == ResolveValue(Merge(primaries + fallbacks)[k], Merge(primaries + fallbacks))
  {
    var base := Merge(primaries);
    var merged := MergeInto(base, fallbacks);
    var resolved := map k | k in merged :: ResolveValue(merged[k], merged);
    assert Build(primaries, fallbacks) == resolved - (merged.Keys - base.Keys);
    MergeKeys(primaries);
    MergeIntoKeys(base, fallbacks);
    assert k in base && k in merged;
    assert resolved[k] == ResolveValue(merged[k], merged);
    MergedIsMergeOfAll(primaries, fallbacks);
  }

  /**
   Precedence in the store: the raw value that gets resolved is the one the
   earliest primary source defining the key gives it, whatever the fallbacks say.
   */
  lemma PrimaryPrecedence(primaries: seq<Source>, fallbacks: seq<Source>, i: int, k: string)
    requires FirstDefines(primaries, i, k)
    ensures k in Build(primaries, fallbacks)
    ensures Build(primaries, fallbacks)[k]
         == ResolveValue(primaries[i][k], Merge(primaries + fallbacks))
  {
    UnionKeysMember(primaries, i, k);
    BuildValue(primaries, fallbacks, k);
    MergeFirstWins(primaries, i, k);
    MergedIsMergeOfAll(primaries, fallbacks);
    MergeIntoKeepsEarlier(Merge(primaries), fallbacks, k);
  }

  /**
   A key no primary source defines is looked up in the earliest fallback
   that defines it, yet it is not an entry of the store.
   */
  lemma FallbackOnlyForLookup(primaries: seq<Source>, fallbacks: seq<Source>, i: int, k: string)
    requires k !in UnionKeys(primaries)
    requires FirstDefines(fallbacks, i, k)
    ensures k in Merge(primaries + fallbacks) && Merge(primaries + fallbacks)[k] == fallbacks[i][k]
    ensures k !in Build(primaries, fallbacks)
  {
    BuildKeys(primaries, fallbacks);
    MergeKeys(primaries);
    MergedIsMergeOfAll(primaries, fallbacks);
    MergeIntoFirstWins(Merge(primaries), fallbacks, i, k);
  }

  lemma SingleSourceMerge(m: Source, fallbacks: seq<Source>, k: string)
    requires k in m
    ensures k in Merge([m] + fallbacks) && Merge([m] + fallbacks)[k] == m[k]
  {
    MergeFirstWins([m] + fallbacks, 0, k);
  }

  /**
   A primary value `${n}` plus a placeholder-free suffix, where only a
   fallback binds `n` to a placeholder-free value: the stored value is the
   fallback's value followed by the suffix, and `n` is no entry of the store.
   */
  lemma ResolvesThroughFallback(key: string, n: string, v: string, suffix: string)
    requires IsName(n) && key != n
    requires '$' !in v && '$' !in suffix
    ensures Build([map[key := Token(n) + suffix]], [map[n := v]]) == map[key := v + suffix]
  {
    var p := [map[key := Token(n) + suffix]];
    var f := [map[n := v]];
    var merged := Merge(p + f);
    var store := Build(p, f);
    var raw := Token(n) + suffix;
    assert UnionKeys(p) == {key} by {
      assert p[1..] == [];
    }
    assert store.Keys == {key} by {
      BuildKeys(p, f);
    }
    assert n in merged && merged[n] == v by {
      assert FirstDefines(f, 0, n);
      FallbackOnlyForLookup(p, f, 0, n);
    }
    assert store[key] == ResolveValue(raw, merged) by {
      assert FirstDefines(p, 0, key);
      PrimaryPrecedence(p, f, 0, key);
    }
    assert Pass(raw, merged) == v + suffix by {
      PassOfTokenThenPlain(n, suffix, merged);
    }
    assert IsFixed(v + suffix, merged) by {
      NoDollarConcat(v, suffix);
      NoDollarNoScan(v + suffix);
      NoBoundTokenIsFixed(v + suffix, merged);
    }
    assert Iterate(raw, merged, 1) == v + suffix by {
      assert Iterate(raw, merged, 0) == raw;
    }
    ResolveReachesFixedPoint(raw, merged, 1);
    SingletonMap(store, key, v + suffix);
  }

  /**
   With no fallback sources, `k1=${ENV1}` stays `${ENV1}`: a placeholder
   whose name nothing binds is kept verbatim, and the store has one entry.
   */
  lemma UnboundPlaceholderKept(key: string, n: string)
    requires IsName(n) && key != n
    ensures Build([map[key := Token(n)]], []) == map[key := Token(n)]
  {
    var p := [map[key := Token(n)]];
    var e: seq<Source> := [];
    var store := Build(p, e);
    var merged := Merge(p + e);
    assert UnionKeys(p) == {key} by {
      assert p[1..] == [];
    }
    assert store.Keys == {key} by {
      BuildKeys(p, e);
    }
    assert n !in merged by {
      MergeKeys(p + e);
      assert p + e == p;
    }
    assert store[key] == Token(n) by {
      BuildValue(p, e, key);
      MergeFirstWins(p + e, 0, key);
      assert Scan(Token(n)) == [n] by {
        ScanTokenFirst(n, []);
        assert Token(n) + [] == Token(n);
      }
      NoBoundTokenIsFixed(Token(n), merged);
      ResolveFixedPoint(Token(n), merged);
    }
    SingletonMap(store, key, Token(n));
  }

  lemma SingletonMap(m: Source, k: string, v: string)
    requires m.Keys == {k} && m[k] == v
    ensures m == map[k := v]
  {
  }

  /**
   `key.1=${key.2}`, `key.2=${key.1}` in the first primary source: the store
   keeps `${key.2}` for `key.1`, whatever the other sources hold.
   */
  lemma CircularReferenceStored(primaries: seq<Source>, fallbacks: seq<Source>, a: string, b: string)
    requires IsName(a) && IsName(b) && a != b
    requires |primaries| > 0 && a in primaries[0] && b in primaries[0]
    requires primaries[0][a] == Token(b) && primaries[0][b] == Token(a)
    ensures a in Build(primaries, fallbacks) && Build(primaries, fallbacks)[a] == Token(b)
  {
    var merged := Merge(primaries + fallbacks);
    PrimaryPrecedence(primaries, fallbacks, 0, a);
    assert FirstDefines(primaries + fallbacks, 0, a);
    assert FirstDefines(primaries + fallbacks, 0, b);
    MergeFirstWins(primaries + fallbacks, 0, a);
    MergeFirstWins(primaries + fallbacks, 0, b);
    CircularReferenceKeepsRaw(a, b, merged);
  }

  /**
   `key.44=${${key.33}}` with `key.33=java.class.path` and `java.class.path`
   bound to a placeholder-free value `v` in the merged map: the store holds `v`.
   */
  lemma NestedReferenceStored(primaries: seq<Source>, fallbacks: seq<Source>, k: string, a: string, b: string)
    requires IsName(a) && IsName(b)
    requires k in UnionKeys(primaries)
    requires var m := Merge(primaries + fallbacks);
      && k in m && m[k] == Token(Token(a)) && a in m && m[a] == b && b in m && '$' !in m[b]
    ensures k in Build(primaries, fallbacks) && Build(primaries, fallbacks)[k] == Merge(primaries + fallbacks)[b]
  {
    BuildValue(primaries, fallbacks, k);
    MergeKeys(primaries + fallbacks);
    UnionKeysAppend(primaries, fallbacks);
    NestedReferenceResolves(a, b, Merge(primaries + fallbacks));
  }

  // ---------------------------------------------------------------------
  // Querying

  /**
   `getPropertyResolve` returns the default exactly when the resolved key is
   absent from the store; otherwise it returns a value that is a fixed point
   against the store or the stored value itself.
   */
  lemma GetPropertyResolveDefault(store: Source, key: string, default: Option<string>)
    ensures ResolveValue(key, store) !in store ==> GetPropertyResolve(store, key, default) == default
    ensures ResolveValue(key, store) in store ==>
              && GetPropertyResolve(store, key, default).Some?
              && (|| IsFixed(GetPropertyResolve(store, key, default).value, store)
                  || GetPropertyResolve(store, key, default).value == store[ResolveValue(key, store)])
    ensures GetPropertyResolve(store, key, None).None? <==> ResolveValue(key, store) !in store
  {
    var kr := ResolveValue(key, store);
    if kr in store {
      ResolveSettlesOrGivesUp(store[kr], store);
    }
  }

  /** A plain key whose stored value is already settled reads back exactly as stored. */
  lemma GetPropertyResolvePlain(store: Source, key: string, default: Option<string>)
    requires !ContainsToken(key)
    requires key in store && IsFixed(store[key], store)
    ensures GetPropertyResolve(store, key, default) == Some(store[key])
  {
    NoTokenIsFixed(key, store);
    ResolveFixedPoint(store[key], store);
  }

  // ---------------------------------------------------------------------
  // Partitioning

  lemma StripEntries(store: Source, p: string)
    ensures Strip(store, p).Keys == StrippedKeys(store, p)
    ensures forall k :: k in store && p <= k ==> k[|p|..] in Strip(store, p) && Strip(store, p)[k[|p|..]] == store[k]
  {
    forall s | s in StrippedKeys(store, p) ensures p + s in store {
      var k :| k in store && p <= k && k[|p|..] == s;
      assert p + s == k;
    }
    forall k | k in store && p <= k ensures k[|p|..] in Strip(store, p) && Strip(store, p)[k[|p|..]] == store[k] {
      assert p + k[|p|..] == k;
    }
  }

  /** A name is a stripped key exactly when the prefix followed by that name is a key of the store. */
  lemma StrippedKeysMember(store: Source, p: string, s: string)
    ensures s in StrippedKeys(store, p) <==> p + s in store
  {
    if p + s in store {
      assert p <= p + s && (p + s)[|p|..] == s;
    }
    if s in StrippedKeys(store, p) {
      var k :| k in store && p <= k && k[|p|..] == s;
      assert p + s == k;
    }
  }

  /** The partition's key set is exactly the store's keys under the dot-terminated prefix, with the prefix removed. */
  lemma PartitionKeys(store: Source, prefix: string, fallbacks: seq<Source>)
    ensures Partition(store, prefix, fallbacks).Keys == StrippedKeys(store, DotTerminated(prefix))
  {
    var stripped := Strip(store, DotTerminated(prefix));
    BuildKeys([stripped], fallbacks);
    StripEntries(store, DotTerminated(prefix));
    assert UnionKeys([stripped]) == stripped.Keys by {
      assert [stripped][1..] == [];
    }
  }

  /** Each partition entry is the parent's value resolved again against the stripped entries and the fallbacks. */
  lemma PartitionValue(store: Source, prefix: string, fallbacks: seq<Source>, k: string)
    requires k in store && DotTerminated(prefix) <= k
    ensures var p := DotTerminated(prefix);
      && k[|p|..] in Partition(store, prefix, fallbacks)
      && Partition(store, prefix, fallbacks)[k[|p|..]]
         == ResolveValue(store[k], Merge([Strip(store, p)] + fallbacks))
  {
    var p := DotTerminated(prefix);
    var stripped := Strip(store, p);
    StripEntries(store, p);
    PartitionKeys(store, prefix, fallbacks);
    SingleSourceMerge(stripped, fallbacks, k[|p|..]);
    assert UnionKeys([stripped]) == stripped.Keys by {
      assert [stripped][1..] == [];
    }
    BuildValue([stripped], fallbacks, k[|p|..]);
  }

  /** An entry already settled against its partition's lookup map keeps its value. */
  lemma PartitionKeepsSettled(store: Source, prefix: string, fallbacks: seq<Source>, k: string)
    requires k in store && DotTerminated(prefix) <= k
    requires IsFixed(store[k], Merge([Strip(store, DotTerminated(prefix))] + fallbacks))
    ensures k[|DotTerminated(prefix)|..] in Partition(store, prefix, fallbacks)
    ensures Partition(store, prefix, fallbacks)[k[|DotTerminated(prefix)|..]] == store[k]
  {
    PartitionValue(store, prefix, fallbacks, k);
    ResolveFixedPoint(store[k], Merge([Strip(store, DotTerminated(prefix))] + fallbacks));
  }

  /** `partition("root.")` and `partition("root")` are the same. */
  lemma PartitionPrefixNormalised(store: Source, prefix: string, fallbacks: seq<Source>)
    requires |prefix| == 0 || prefix[|prefix| - 1] != '.'
    ensures Partition(store, prefix + ".", fallbacks) == Partition(store, prefix, fallbacks)
  {
  }
}
