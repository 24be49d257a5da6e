# EnvAwareProperties in Dafny

A functional model of the placeholder-resolving configuration store of the
`net.wushilin.props` library, with proofs about it.

An `EnvAwareProperties` store is built from an ordered list of primary
sources: overrides, parsed `.properties` files and explicit maps. Fallback
sources sit behind them: `.jproperties` files, system properties and the
process environment. The first source that defines a key supplies its raw
value. Every value is then rewritten by `resolveEnv` until no pass changes
it, or until 500 passes are spent, in which case the raw value is kept.
A pass replaces each `${name}` whose name is bound by that name's value.
Values are resolved against the merged map, and afterwards the keys that
only a fallback defined are dropped again. `EnvProperties` supplies the two
translators that turn environment-variable or system-property names into
configuration keys:

- the default translator: `__` gives `_`, `_` gives `.`, and the result is lower-cased;
- the hex translator, which decodes two-character hex pairs.

Files:

- `optional.dfy`: the `Option` type. It stands in for Java's `null`, and for
  the exceptions that are caught.
- `strings.dfy`: literal search and literal replace-all (what a quoted
  `replaceAll` does), `String.replace(char, char)` and ASCII lower-casing.
- `placeholder.dfy`: the token scanner (what `Matcher.find` does with
  `\$\{([a-zA-Z0-9-_.]+)\}`), one resolution pass, and the depth-bounded
  `resolveEnv`, including its outcome, idempotence and circular-reference
  lemmas.
- `store.dfy`: the first-wins merge, `initialize`, `getPropertyResolve` and
  `partition`.
- `translators.dfy`: `DefaultTranslator`, `HexTranslator`/`hexToString` and
  `getTranslator`.
- `scenarios.dfy`: the repository's concrete examples, worked out through
  the general lemmas.

Three behaviours of the code are worth stating explicitly:

- When the depth limit is hit, `resolveEnv` returns the original raw
  input. It does not return the last partially substituted text.
- `getPropertyResolve` resolves against the final store (`this`). It does
  not use the merged map from construction.
- `hexToString` parses each pair with `Integer.parseInt(pair, 16)`, which
  also accepts a sign followed by one digit. So `-1` decodes to the
  character `\uFFFF`, and a decoded character is not always in the range
  0 to 255 (`Translators.SignedPairsAccepted`). The 0 to 255 bound holds
  whenever the remainder contains no sign (`Translators.HexTranslateBelow256`).

A quirk of the default translator is also modelled as written. It marks
each doubled underscore with `\u0000`. A `\u0000` already present in the
name therefore also comes out as `_` (`Translators.Rename`).

## Model

| member | source | states |
|---|---|---|
| Placeholder.ResolveOutcome | src/main/java/net/wushilin/props/EnvAwareProperties.java:619-651 | Resolution always returns one of two results. Either some number of passes below 500 reaches a string that one more pass leaves unchanged, and that string is the result. Or no pass count below 500 settles, and the result is the raw input itself. |
| Placeholder.ResolveSettlesOrGivesUp | src/main/java/net/wushilin/props/EnvAwareProperties.java:645-650 | The resolved value is either a fixed point of one more pass or exactly the raw input. |
| Placeholder.ResolveReachesFixedPoint | src/main/java/net/wushilin/props/EnvAwareProperties.java:627-651 | If the k-th iterate is a fixed point for some k < 500, resolution returns that iterate. |
| Placeholder.ResolveGivesUp | src/main/java/net/wushilin/props/EnvAwareProperties.java:619-629 | If no iterate below the 500-pass budget is a fixed point, the caught `CircularReferenceException` makes the result the raw input. |
| Placeholder.ResolveFixedPoint | src/main/java/net/wushilin/props/EnvAwareProperties.java:645-647 | A string that one pass leaves unchanged resolves to itself. |
| Placeholder.ResolveIdempotent | src/main/java/net/wushilin/props/EnvAwareProperties.java:619-651 | Resolving an already resolved value changes nothing. |
| Placeholder.Resolve | src/main/java/net/wushilin/props/EnvAwareProperties.java:631-633 | An absent (null) input gives an absent result, and a present input gives a present result. |
| Placeholder.ResolveAbsent | src/main/java/net/wushilin/props/EnvAwareProperties.java:631-633 | Resolving null yields null. |
| Placeholder.NoBoundTokenIsFixed | src/main/java/net/wushilin/props/EnvAwareProperties.java:636-647 | A string whose scanned placeholder names are all unbound is a fixed point, and it resolves to itself. |
| Placeholder.NoTokenIsFixed | src/main/java/net/wushilin/props/EnvAwareProperties.java:634-647 | A string with no well-formed `${name}` resolves to itself. |
| Placeholder.SubstituteUnbound | src/main/java/net/wushilin/props/EnvAwareProperties.java:639-643 | Names missing from the lookup map cause no replacement. |
| Placeholder.NameRunIsMaximal | src/main/java/net/wushilin/props/EnvAwareProperties.java:634 | The scanned name run consists of name characters `[A-Za-z0-9_.-]` and cannot be extended. Only this maximal run can be closed by `}`. |
| Placeholder.NameAtIsToken | src/main/java/net/wushilin/props/EnvAwareProperties.java:634 | A recognised match spells `${name}` with a non-empty name of name characters. |
| Placeholder.TokenIsRecognised | src/main/java/net/wushilin/props/EnvAwareProperties.java:634-638 | A well-formed `${n}` at the scan position is matched with exactly the name `n`. |
| Placeholder.ScanSound | src/main/java/net/wushilin/props/EnvAwareProperties.java:636-638 | Every name `find` reports is well formed, and its placeholder occurs in the pass input. |
| Placeholder.ScanComplete | src/main/java/net/wushilin/props/EnvAwareProperties.java:636-638 | The `find` loop reports the name of every well-formed placeholder that occurs anywhere in the input. No match can hide another, because only the first character of a match is a `$`. |
| Placeholder.ScanEmptyIffNoToken | src/main/java/net/wushilin/props/EnvAwareProperties.java:634-638 | The scan finds nothing exactly when no well-formed placeholder occurs. |
| Placeholder.ScanTokenFirst | src/main/java/net/wushilin/props/EnvAwareProperties.java:636-638 | A leading placeholder is reported first, and scanning resumes right after it. |
| Placeholder.ScanNested | src/main/java/net/wushilin/props/EnvAwareProperties.java:634-638 | In `${${a}}` the outer `${` is not a match, and the scan reports only `a`. |
| Placeholder.PassOfToken | src/main/java/net/wushilin/props/EnvAwareProperties.java:639-643 | A lone bound placeholder becomes its value in one pass. |
| Placeholder.PassOfTokenThenPlain | src/main/java/net/wushilin/props/EnvAwareProperties.java:639-643 | A bound placeholder followed by plain text becomes the value followed by that text. |
| Placeholder.PassReplacesEveryCopy | src/main/java/net/wushilin/props/EnvAwareProperties.java:639-644 | In `${n}` + x + `${n}` + y, with x, y and the value of the bound `n` free of `$`, one pass replaces both copies. The general fact for one replacement step is `Strings.ReplaceAllSplits`. |
| Placeholder.ReplaceNested | src/main/java/net/wushilin/props/EnvAwareProperties.java:642 | Replacing the inner `${a}` of `${${a}}` by `b` leaves `${b}`. |
| Placeholder.CircularStep | src/main/java/net/wushilin/props/EnvAwareProperties.java:639-644 | With `a=${b}` and `b=${a}`, one pass turns either placeholder into the other. |
| Placeholder.Alternates | src/main/java/net/wushilin/props/EnvAwareProperties.java:645-650 | Two strings that one pass swaps stay in that pair under any number of passes. |
| Placeholder.NeverFixed | src/main/java/net/wushilin/props/EnvAwareProperties.java:645-650 | For a mutual reference, no number of passes reaches a fixed point. |
| Placeholder.CircularReferenceKeepsRaw | src/main/java/net/wushilin/props/EnvAwareProperties.java:619-629 | With `a=${b}` and `b=${a}`, resolving `${b}` returns the literal `${b}` and does not fail. |
| Placeholder.NestedReferenceResolves | src/main/java/net/wushilin/props/EnvAwareProperties.java:645-650 | `${${a}}` with `a=b` resolves to the value of `b`: the first pass produces `${b}` and the second substitutes it. |
| Strings.ReplaceAllAbsent | src/main/java/net/wushilin/props/EnvAwareProperties.java:642 | A quoted replace-all leaves a string without the pattern unchanged. |
| Strings.ReplaceAllSplits | src/main/java/net/wushilin/props/EnvAwareProperties.java:642 | For a pattern that cannot overlap itself, the quoted replace-all replaces every occurrence. Replacing in `x + pat + y` is replacing in `x`, then `rep`, then replacing in `y`. |
| Strings.ReplaceChar | src/main/java/net/wushilin/props/EnvProperties.java:26-28 | The result keeps the length and changes only the positions that held `from`. When `from` differs from `to`, no `from` is left. A string without `from` is returned unchanged. |
| Strings.LowerAscii | src/main/java/net/wushilin/props/EnvProperties.java:30 | The result keeps the length and contains no upper-case ASCII letter. A string that has none is returned unchanged, so lower-casing twice is lower-casing once. |
| Strings.LowerAsciiChar | src/main/java/net/wushilin/props/EnvProperties.java:30 | The result is never an upper-case ASCII letter. Upper-case letters move down by 32, and every other character is kept. |
| Store.Absorb | src/main/java/net/wushilin/props/EnvAwareProperties.java:386-391 | `putIfAbsent` of every entry: the keys are the union of both key sets, existing entries keep their values, and only absent keys take the new values. Absorbing keys that are all present already changes nothing, and absorbing into an empty map copies the new map. |
| Store.MergeKeys | src/main/java/net/wushilin/props/EnvAwareProperties.java:386-391 | The merged key set is exactly the union of the sources' key sets. |
| Store.MergeFirstWins | src/main/java/net/wushilin/props/EnvAwareProperties.java:386-391 | The earliest source that defines a key supplies its merged value. |
| Store.MergedIsMergeOfAll | src/main/java/net/wushilin/props/EnvAwareProperties.java:396-404 | Adding fallbacks only for absent keys is the first-wins merge of primaries followed by fallbacks. |
| Store.BuildKeys | src/main/java/net/wushilin/props/EnvAwareProperties.java:396-418 | The store's key set is exactly the union of the primary sources' keys. Fallback-only keys are removed. |
| Store.BuildValue | src/main/java/net/wushilin/props/EnvAwareProperties.java:406-413 | Each stored value is the key's merged raw value, resolved against the unchanging merged map and stored under the original key. It is independent of iteration order. |
| Store.PrimaryPrecedence | src/main/java/net/wushilin/props/EnvAwareProperties.java:386-413 | The earliest primary source that defines a key supplies the raw value that is resolved and stored. |
| Store.FallbackOnlyForLookup | src/main/java/net/wushilin/props/EnvAwareProperties.java:396-418 | A key only a fallback defines takes its first fallback's value in the lookup map, and it is absent from the store. |
| Store.ResolvesThroughFallback | src/main/java/net/wushilin/props/EnvAwareProperties.java:396-418 | `k=${n}` with `n` bound only by a fallback stores the fallback's value, and the store holds `k` alone. |
| Store.UnboundPlaceholderKept | src/test/java/net/wushilin/envaware/properties/test/TestBuilder.java:34-36 | With no fallbacks, `k=${n}` keeps `${n}` verbatim, and the store holds `k` alone. |
| Store.CircularReferenceStored | src/main/java/net/wushilin/props/EnvAwareProperties.java:718-719 | Mutually referring primary entries `a=${b}`, `b=${a}` store `a` as the literal `${b}`. |
| Store.NestedReferenceStored | src/main/java/net/wushilin/props/EnvAwareProperties.java:734-735 | `k=${${a}}` with `a=b` stores the merged value of `b`. |
| Store.GetPropertyResolveDefault | src/main/java/net/wushilin/props/EnvAwareProperties.java:701-708 | The default is returned exactly when the resolved key is absent from the store. Otherwise the result is the stored value resolved, which is either a fixed point or the stored value itself. |
| Store.GetPropertyResolvePlain | src/main/java/net/wushilin/props/EnvAwareProperties.java:701-708 | A placeholder-free key whose stored value is settled reads back exactly as stored. |
| Store.DotTerminated | src/main/java/net/wushilin/props/EnvAwareProperties.java:764-766 | The normalised prefix ends in `.`, extends the given prefix, and is at most one character longer. A prefix that already ends in `.` is kept as it is. |
| Store.StrippedKeysMember | src/main/java/net/wushilin/props/EnvAwareProperties.java:768-773 | A name is kept exactly when the prefix followed by the name is a key of the store. |
| Store.StripEntries | src/main/java/net/wushilin/props/EnvAwareProperties.java:768-776 | Every key under the prefix appears with the prefix removed and keeps its value. |
| Store.PartitionKeys | src/main/java/net/wushilin/props/EnvAwareProperties.java:763-778 | The partition's key set is exactly the store's keys under the dot-terminated prefix, with the prefix removed. |
| Store.PartitionValue | src/main/java/net/wushilin/props/EnvAwareProperties.java:767-777 | Each entry is the parent's value resolved again against the stripped entries, merged with the fallbacks. |
| Store.PartitionKeepsSettled | src/main/java/net/wushilin/props/EnvAwareProperties.java:767-777 | An entry already settled against its partition's lookup map (the stripped entries merged with the fallbacks) keeps its value, for every fallback list. |
| Store.PartitionPrefixNormalised | src/main/java/net/wushilin/props/EnvAwareProperties.java:764-766 | `partition("p.")` and `partition("p")` give the same result. |
| Scenarios.OverrideFromEnvironment | src/test/java/net/wushilin/envaware/properties/test/TestBuilder.java:29-31 | The override `k1=${ENV1}`, with the environment binding `ENV1`, gives a one-entry store holding the environment's text. |
| Scenarios.OverrideWithoutFallbacks | src/test/java/net/wushilin/envaware/properties/test/TestBuilder.java:34-36 | The same override with every fallback disabled keeps `${ENV1}`, and the store has one entry. |
| Scenarios.PartitionRootExample | src/main/java/net/wushilin/props/EnvAwareProperties.java:763-778 | Partitioning `{root.ns1.a=1, root.ns2.b=2, other=3}` by `root` gives `{ns1.a=1, ns2.b=2}`, whatever the fallbacks. |
| Scenarios.PartitionTwiceExample | src/main/java/net/wushilin/props/EnvAwareProperties.java:763-778 | Partitioning that result again by `ns1` gives `{a=1}`, whatever the fallbacks of either call. |
| Translators.NoMatchIffNoPrefix | src/main/java/net/wushilin/props/EnvProperties.java:17-20 | Both translators give null exactly when the name lacks the prefix. |
| Translators.DefaultNeverRejects | src/main/java/net/wushilin/props/EnvProperties.java:15-32 | The default translator never fails. |
| Translators.DefaultTranslateIsRename | src/main/java/net/wushilin/props/EnvProperties.java:17-31 | The three replacement steps equal one left-to-right rewrite: each non-overlapping `__` becomes `_`, every other `_` becomes `.`, and the result is lower-cased. |
| Translators.DefaultTranslateIsLowerCase | src/main/java/net/wushilin/props/EnvProperties.java:30 | The default translator's output contains no upper-case ASCII letter. |
| Translators.DefaultTranslateDoubledExample | src/test/java/net/wushilin/envaware/properties/test/EnvPropertiesTest.java:24-26 | `ENV_DATABASE__URL` gives `database_url`. |
| Translators.DefaultTranslateSingleExample | src/test/java/net/wushilin/envaware/properties/test/EnvPropertiesTest.java:25-27 | `ENV_DATABASE_URL` gives `database.url`. |
| Translators.DefaultTranslateNameExample | src/test/java/net/wushilin/envaware/properties/test/EnvPropertiesTest.java:33-34 | `ENV_MY__NAME` gives `my_name`. |
| Translators.HexOddLengthRejected | src/main/java/net/wushilin/props/EnvProperties.java:44-47 | An odd-length remainder after the prefix is rejected as invalid. |
| Translators.PairValue | src/main/java/net/wushilin/props/EnvProperties.java:51 | `parseInt(pair, 16)` succeeds exactly for two hex digits, or for a sign followed by one hex digit, with the corresponding value in each case. |
| Translators.CharOf | src/main/java/net/wushilin/props/EnvProperties.java:52 | The `(char)` cast keeps the value modulo 2^16, and it keeps non-negative values as they are. |
| Translators.DecodeHexSucceeds | src/main/java/net/wushilin/props/EnvProperties.java:49-53 | Decoding succeeds exactly when every pair parses. |
| Translators.DecodeHexContents | src/main/java/net/wushilin/props/EnvProperties.java:48-54 | The decoded text has one character per pair, and character i is pair i's value cast to a character. |
| Translators.HexTranslateContents | src/main/java/net/wushilin/props/EnvProperties.java:36-54 | On an even remainder, translation succeeds exactly when every pair parses, and otherwise it is rejected. On success the key is half as long as the remainder, and character i is pair i cast to a character. |
| Translators.HexTranslateBelow256 | src/main/java/net/wushilin/props/EnvProperties.java:48-54 | With no sign character in the remainder, every decoded character is below 256. |
| Translators.SignedPairsAccepted | src/main/java/net/wushilin/props/EnvProperties.java:51-52 | `-1` decodes to `\uFFFF` and `+7` to `\u0007`. |
| Translators.DecodeEncode | src/main/java/net/wushilin/props/EnvProperties.java:44-55 | Decoding the two-hex-digit encoding of a string whose characters are all below 256 gives that string back. |
| Translators.HexTranslateRoundTrip | src/main/java/net/wushilin/props/EnvProperties.java:36-55 | Behind any prefix, the hex translator inverts the two-hex-digit encoding. |
| Translators.HexTranslateExample | src/test/java/net/wushilin/envaware/properties/test/EnvPropertiesTest.java:40-41 | `ENV_6D792E6B6579` decodes to `my.key`. |
| Translators.GetTranslatorHexIff | src/main/java/net/wushilin/props/EnvProperties.java:60-71 | The hex translator is chosen exactly for a three-letter flavour spelling `hex` in any mix of case. |
| Translators.GetTranslatorDefault | src/main/java/net/wushilin/props/EnvProperties.java:60-71 | No flavour, `default`, or any flavour that does not lower-case to `hex` gives the default translator. |

## Left out

- The `Builder` is left out. It is fluent plumbing. The model takes the primary and fallback sources as explicit lists instead, with the overrides map as the first primary source.
- All I/O and `.properties` parsing is left out: `loadAll`, `toProperties`, the file, stream, classpath and `.jproperties` loaders, `defaultProperties`, `canLoad` and `main`. The model takes already-parsed maps.
- `sysProps`, `sysEnv`, `EnvProperties.fromEnvironment` and `fromSysProperties` are left out. They read ambient process state, and `fromEnvironment` resolves key collisions by the iteration order of a `HashMap`. Their contents enter the model as explicit fallback maps.
- Java's regex engine is left out. The one pattern used, `Pattern.quote` and `Matcher.quoteReplacement` are modelled directly: the scanner `Placeholder.Scan` and the literal `Strings.ReplaceAll`.
- `CircularReferenceException` is an `Option` result (`Placeholder.ResolveFrom`), not an exception.
- Store.Partition: `partition` rebuilds a partition through the public constructor, whose default flags enable the environment, system-property and `.jproperties` fallbacks. Those are ambient, so the model takes the partition's fallbacks as an explicit list. Every partition lemma and example holds for every fallback list.
- Strings.LowerAscii: lower-cases ASCII letters only. Java's `toLowerCase` is locale-dependent and covers all of Unicode.
- Translators.HexDigitValue: accepts ASCII hex digits only. `Character.digit` also accepts other Unicode digits and full-width letters.
- `Properties` entries whose value is not a `String` are left out, because `getProperty` reports them as null. The model's sources map strings to strings.
- A null key or null prefix is left out, because the Java code throws a `NullPointerException` there.
- Hashtable synchronisation and mutation of a store after construction are left out.
- Translators.HexTranslate: Dafny strings are sequences of Unicode scalar values, while a Java string is a sequence of UTF-16 code units. `hex.length() % 2` counts a character above U+FFFF as two units, so for such a name the model and Java can disagree on which error is raised. For `ENV_` followed by one such character, the model reports an odd length, while Java passes the length check and `parseInt` then fails (the model's `NotHexPair`). Adding one hex digit after it reverses the two outcomes. Names made only of characters up to U+FFFF are modelled exactly.
