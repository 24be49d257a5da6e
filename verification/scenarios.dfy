/**
 Concrete configurations from the repository's sample program and tests,
 worked through the general lemmas of the store.
 */
module Scenarios {
  import opened Placeholder
  import opened Store

  lemma Env1IsName()
    ensures IsName("ENV1") && Token("ENV1") == "${ENV1}"
  {
  }

  /**
   An override `k1=${ENV1}` with the environment binding `ENV1`: the store
   has the single entry `k1`, holding the environment's value.
   */
  lemma OverrideFromEnvironment()
    ensures Build([map["k1" := "${ENV1}"]], [map["ENV1" := "A long story with ENV1"]])
         == map["k1" := "A long story with ENV1"]
  {
    Env1IsName();
    var e: string := [];
    ResolvesThroughFallback("k1", "ENV1", "A long story with ENV1", e);
    assert Token("ENV1") + e == "${ENV1}";
    assert "A long story with ENV1" + e == "A long story with ENV1";
  }

  /** The same override with every fallback disabled: `k1` keeps `${ENV1}` verbatim. */
  lemma OverrideWithoutFallbacks()
    ensures Build([map["k1" := "${ENV1}"]], []) == map["k1" := "${ENV1}"]
  {
    Env1IsName();
    UnboundPlaceholderKept("k1", "ENV1");
  }

  /** A store whose values are all placeholder-free. */
  function Sample(): Source {
    map["root.ns1.a" := "1", "root.ns2.b" := "2", "other" := "3"]
  }

  lemma SettledPlain(s: string, env: Env)
    requires '$' !in s
    ensures IsFixed(s, env)
  {
    NoDollarNoScan(s);
    NoBoundTokenIsFixed(s, env);
  }

  lemma PrefixCancel(p: string, s: string, t: string)
    ensures p + s == p + t ==> s == t
  {
    if p + s == p + t {
      assert s == (p + s)[|p|..];
      assert t == (p + t)[|p|..];
    }
  }

  /** The names `partition("root")` keeps: those under `root.`, with the prefix removed. */
  lemma SampleRootKeys()
    ensures StrippedKeys(Sample(), "root.") == {"ns1.a", "ns2.b"}
  {
    var store := Sample();
    var p := "root.";
    assert "root.ns1.a" == p + "ns1.a" && "root.ns2.b" == p + "ns2.b";
    forall s | s in StrippedKeys(store, p) ensures s in {"ns1.a", "ns2.b"} {
      StrippedKeysMember(store, p, s);
      assert p + s != "other" by {
        assert (p + s)[0] == 'r';
      }
      PrefixCancel(p, s, "ns1.a");
      PrefixCancel(p, s, "ns2.b");
    }
    StrippedKeysMember(store, p, "ns1.a");
    StrippedKeysMember(store, p, "ns2.b");
  }

  /** `partition("root")` keeps `ns1.a=1` and `ns2.b=2` and drops `other`, whatever the fallbacks. */
  lemma PartitionRootExample(fallbacks: seq<Source>)
    ensures Partition(Sample(), "root", fallbacks) == map["ns1.a" := "1", "ns2.b" := "2"]
  {
    PartitionRoot(Sample(), fallbacks);
  }

  lemma PartitionRoot(store: Source, fallbacks: seq<Source>)
    requires store == Sample()
    ensures Partition(store, "root", fallbacks) == map["ns1.a" := "1", "ns2.b" := "2"]
  {
    var part := Partition(store, "root", fallbacks);
    RootDotted();
    SampleEntries();
    SampleRootKeys();
    PartitionKeys(store, "root", fallbacks);
    PlainEntryKept(store, "root", fallbacks, "ns1.a");
    PlainEntryKept(store, "root", fallbacks, "ns2.b");
    PairMap(part, "ns1.a", "1", "ns2.b", "2");
  }

  lemma SampleEntries()
    ensures "root.ns1.a" in Sample() && Sample()["root.ns1.a"] == "1"
    ensures "root.ns2.b" in Sample() && Sample()["root.ns2.b"] == "2"
  {
  }

  lemma RootDotted()
    ensures DotTerminated("root") == "root."
    ensures "root." + "ns1.a" == "root.ns1.a" && "root." + "ns2.b" == "root.ns2.b"
  {
  }

  /** An entry under the prefix whose value holds no placeholder keeps that value, whatever the fallbacks. */
  lemma PlainEntryKept(store: Source, prefix: string, fallbacks: seq<Source>, name: string)
    requires DotTerminated(prefix) + name in store && '$' !in store[DotTerminated(prefix) + name]
    ensures name in Partition(store, prefix, fallbacks)
    ensures Partition(store, prefix, fallbacks)[name] == store[DotTerminated(prefix) + name]
  {
    var p := DotTerminated(prefix);
    var k := p + name;
    assert p <= k && k[|p|..] == name;
    SettledPlain(store[k], Merge([Strip(store, p)] + fallbacks));
    PartitionKeepsSettled(store, prefix, fallbacks, k);
  }

  lemma PairMap(m: Source, k1: string, v1: string, k2: string, v2: string)
    requires m.Keys == {k1, k2} && m[k1] == v1 && m[k2] == v2
    ensures m == map[k1 := v1, k2 := v2]
  {
  }

  /** The names `partition("ns1")` keeps from the first partition. */
  lemma Ns1Keys()
    ensures StrippedKeys(map["ns1.a" := "1", "ns2.b" := "2"], "ns1.") == {"a"}
  {
    var store := map["ns1.a" := "1", "ns2.b" := "2"];
    var p := "ns1.";
    assert "ns1.a" == p + "a";
    forall s | s in StrippedKeys(store, p) ensures s == "a" {
      StrippedKeysMember(store, p, s);
      assert p + s != "ns2.b" by {
        assert (p + s)[2] == '1';
      }
      PrefixCancel(p, s, "a");
    }
    StrippedKeysMember(store, p, "a");
  }

  /** Partitioning the result again by `ns1` leaves `a=1`, whatever the fallbacks of either step. */
  lemma PartitionTwiceExample(outer: seq<Source>, inner: seq<Source>)
    ensures Partition(Partition(Sample(), "root", outer), "ns1", inner) == map["a" := "1"]
  {
    PartitionRootExample(outer);
    PartitionNs1(map["ns1.a" := "1", "ns2.b" := "2"], inner);
  }

  lemma PartitionNs1(store: Source, fallbacks: seq<Source>)
    requires store == map["ns1.a" := "1", "ns2.b" := "2"]
    ensures Partition(store, "ns1", fallbacks) == map["a" := "1"]
  {
    var part := Partition(store, "ns1", fallbacks);
    Ns1Dotted();
    Ns1Keys();
    PartitionKeys(store, "ns1", fallbacks);
    PlainEntryKept(store, "ns1", fallbacks, "a");
    SingletonMap(part, "a", "1");
  }

  lemma Ns1Dotted()
    ensures DotTerminated("ns1") == "ns1." && "ns1." + "a" == "ns1.a"
    ensures var store := map["ns1.a" := "1", "ns2.b" := "2"];
      "ns1.a" in store && store["ns1.a"] == "1"
  {
  }
}
