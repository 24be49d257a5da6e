/**
 The key translators of `EnvProperties`: they turn an environment variable
 or system property name carrying a required prefix into a configuration
 key, or report that the name does not carry the prefix.
 */
module Translators {
  import opened Optional
  import opened Strings

  /** The character `\u0000`, which the default translator uses to protect a doubled underscore. */
  const Nul: char := 0 as char

  /** The two translator flavours. */
  datatype Translator = DefaultTranslator | HexTranslator

  /** Why the hex translator rejects a name (`hexToString` throws an `IllegalArgumentException`). */
  datatype Failure = OddLength | NotHexPair

  /** The outcome of translating one name: `NoMatch` is Java's `null`. */
  datatype Translation = NoMatch | Translated(key: string) | Rejected(failure: Failure)

  // ---------------------------------------------------------------------
  // Default translator

  /**
   Strips the prefix, protects each doubled underscore (left to right,
   without overlap) as `\u0000`, turns every remaining `_` into `.`, turns
   the protected characters back into `_`, and lower-cases the result.
   */
  function DefaultTranslate(key: string, prefix: string): Option<string> {
    if !(prefix <= key) then None
    else
      var trimmed := key[|prefix|..];
      var marked := ReplaceAll(trimmed, "__", [Nul]);
      var dotted := ReplaceChar(marked, '_', '.');
      var restored := ReplaceChar(dotted, Nul, '_');
      Some(LowerAscii(restored))
  }

  /**
   The renaming as a single left-to-right rewrite: `__` gives `_`, a lone
   `_` gives `.`. A `\u0000` already present in the name also comes out as
   `_`, because it cannot be told apart from a protected doubled underscore.
   */
  function Rename(t: string): string
    decreases |t|
  {
    if |t| == 0 then []
    else if |t| >= 2 && t[0] == '_' && t[1] == '_' then "_" + Rename(t[2..])
    else if t[0] == '_' then "." + Rename(t[1..])
    else if t[0] == Nul then "_" + Rename(t[1..])
    else [t[0]] + Rename(t[1..])
  }

  // ---------------------------------------------------------------------
  // Hex translator

  /** The value of an ASCII hex digit of either case. */
  function HexDigitValue(c: char): (r: Option<nat>)
    ensures r.Some? ==> r.value < 16
  {
    if '0' <= c <= '9' then Some(c as int - '0' as int)
    else if 'a' <= c <= 'f' then Some(c as int - 'a' as int + 10)
    else if 'A' <= c <= 'F' then Some(c as int - 'A' as int + 10)
    else None
  }

  /**
   `Integer.parseInt` of a two-character string in base 16: two hex digits,
   most significant first, or a sign followed by one hex digit.
   */
  function PairValue(hi: char, lo: char): (r: Option<int>)
    ensures r.Some? <==> HexDigitValue(lo).Some? && (HexDigitValue(hi).Some? || hi == '+' || hi == '-')
    ensures r.Some? && HexDigitValue(hi).Some? ==> r.value == 16 * HexDigitValue(hi).value + HexDigitValue(lo).value
    ensures r.Some? && hi == '+' ==> r.value == HexDigitValue(lo).value
    ensures r.Some? && hi == '-' ==> r.value == 0 - HexDigitValue(lo).value
    ensures r.Some? ==> -16 < r.value < 256
  {
    match (HexDigitValue(hi), HexDigitValue(lo))
    case (Some(h), Some(l)) => Some(16 * h + l)
    case (None, Some(l)) =>
      if hi == '+' then Some(l)
      else if hi == '-' then Some(0 - l as int)
      else None
    case _ => None
  }

  /** The `(char)` cast: the value taken modulo 2^16, so a negative value wraps to the top of the range. */
  function CharOf(v: int): (c: char)
    requires -16 < v < 256
    ensures c as int % 0x1_0000 == v % 0x1_0000
    ensures 0 <= v ==> c as int == v
  {
    if v < 0 then (0x1_0000 + v) as char else v as char
  }

  /** Every two-character pair of `h` is a hex number. */
  predicate AllPairsHex(h: string) {
    forall i :: 0 <= i < |h| / 2 ==> PairValue(h[2 * i], h[2 * i + 1]).Some?
  }

  /** `hexToString` after its length check: pair `i` becomes character `i`; any bad pair fails. */
  function DecodeHex(h: string): Option<string>
    requires |h| % 2 == 0
    decreases |h|
  {
    if |h| == 0 then Some([])
    else match PairValue(h[0], h[1])
      case None => None
      case Some(v) =>
        match DecodeHex(h[2..])
        case None => None
        case Some(rest) => Some([CharOf(v)] + rest)
  }

  /** Strips the prefix and decodes the remainder as two-hex-digit character codes. */
  function HexTranslate(key: string, prefix: string): Translation {
    if !(prefix <= key) then NoMatch
    else
      var hex := key[|prefix|..];
      if |hex| % 2 != 0 then Rejected(OddLength)
      else match DecodeHex(hex)
        case None => Rejected(NotHexPair)
        case Some(s) => Translated(s)
  }

  /** The upper-case hex digit of `d`. */
  function HexDigit(d: nat): char
    requires d < 16
  {
    if d < 10 then ('0' as int + d) as char else ('A' as int + d - 10) as char
  }

  /** The two-hex-digit encoding of a string whose characters are all below 256. */
  function EncodeHex(s: string): (h: string)
    requires forall i :: 0 <= i < |s| ==> s[i] as int < 256
    ensures |h| == 2 * |s|
    ensures |h| % 2 == 0
    decreases |s|
  {
    if |s| == 0 then []
    else [HexDigit(s[0] as int / 16), HexDigit(s[0] as int % 16)] + EncodeHex(s[1..])
  }

  // ---------------------------------------------------------------------
  // Choosing a translator

  /** `getTranslator`: only a flavour that lower-cases to `hex` selects the hex translator. */
  function GetTranslator(flavor: Option<string>): Translator {
    match flavor
    case None => DefaultTranslator
    case Some(f) => if LowerAscii(f) == "hex" then HexTranslator else DefaultTranslator
  }

  /** `Translator.translate` for either flavour. */
  function Translate(t: Translator, key: string, prefix: string): Translation {
    match t
    case DefaultTranslator =>
      (match DefaultTranslate(key, prefix)
       case None => NoMatch
       case Some(k) => Translated(k))
    case HexTranslator => HexTranslate(key, prefix)
  }

  // ---------------------------------------------------------------------
  // Properties

  /** Both translators answer `NoMatch` exactly when the name lacks the prefix. */
  lemma NoMatchIffNoPrefix(t: Translator, key: string, prefix: string)
    ensures Translate(t, key, prefix) == NoMatch <==> !(prefix <= key)
  {
  }

  /** The default translator never rejects a name. */
  lemma DefaultNeverRejects(key: string, prefix: string)
    ensures !Translate(DefaultTranslator, key, prefix).Rejected?
  {
  }

  function Rewrite(c: char): char {
    if c == '_' then '.' else if c == Nul then '_' else c
  }

  lemma RestoreIsRewrite(s: string)
    ensures ReplaceChar(ReplaceChar(s, '_', '.'), Nul, '_') == seq(|s|, i requires 0 <= i < |s| => Rewrite(s[i]))
  {
  }

  lemma {:induction false} MarkedRestoredIsRename(t: string)
    ensures ReplaceChar(ReplaceChar(ReplaceAll(t, "__", [Nul]), '_', '.'), Nul, '_') == Rename(t)
    decreases |t|
  {
    var m := ReplaceAll(t, "__", [Nul]);
    if |t| == 0 {
      RestoreIsRewrite(m);
    } else if "__" <= t {
      var rest := ReplaceAll(t[2..], "__", [Nul]);
      ReplaceAllAtMatch(t, "__", [Nul]);
      MarkedRestoredIsRename(t[2..]);
      RestoreCons(Nul, rest);
    } else {
      var rest := ReplaceAll(t[1..], "__", [Nul]);
      ReplaceAllPastChar(t, "__", [Nul]);
      MarkedRestoredIsRename(t[1..]);
      RestoreCons(t[0], rest);
      RenameStep(t);
    }
  }

  /** Restoring works character by character. */
  lemma RestoreCons(c: char, rest: string)
    ensures ReplaceChar(ReplaceChar([c] + rest, '_', '.'), Nul, '_')
         == [Rewrite(c)] + ReplaceChar(ReplaceChar(rest, '_', '.'), Nul, '_')
  {
    RestoreIsRewrite([c] + rest);
    RestoreIsRewrite(rest);
  }

  /** Away from a doubled underscore, the rewrite handles one character and moves on. */
  lemma RenameStep(t: string)
    requires |t| > 0 && !("__" <= t)
    ensures Rename(t) == [Rewrite(t[0])] + Rename(t[1..])
  {
    if |t| >= 2 {
      assert ("__" <= t) <==> (t[0] == '_' && t[1] == '_');
    }
  }

  /**
   The default translator is the single left-to-right rewrite of the name
   after the prefix, lower-cased: each non-overlapping `__` becomes `_` and
   every other `_` becomes `.`.
   */
  lemma DefaultTranslateIsRename(key: string, prefix: string)
    requires prefix <= key
    ensures DefaultTranslate(key, prefix) == Some(LowerAscii(Rename(key[|prefix|..])))
  {
    MarkedRestoredIsRename(key[|prefix|..]);
  }

  /** The default translator's output contains no upper-case ASCII letter. */
  lemma DefaultTranslateIsLowerCase(key: string, prefix: string)
    requires prefix <= key
    ensures DefaultTranslate(key, prefix).Some?
    ensures forall i :: 0 <= i < |DefaultTranslate(key, prefix).value| ==> !IsUpperAscii(DefaultTranslate(key, prefix).value[i])
  {
  }

  /** The hex translator rejects an odd-length remainder. */
  lemma HexOddLengthRejected(key: string, prefix: string)
    requires prefix <= key && (|key| - |prefix|) % 2 != 0
    ensures HexTranslate(key, prefix) == Rejected(OddLength)
  {
  }

  lemma {:induction false} DecodeHexSucceeds(h: string)
    requires |h| % 2 == 0
    ensures DecodeHex(h).Some? <==> AllPairsHex(h)
    decreases |h|
  {
    if |h| > 0 {
      DecodeHexSucceeds(h[2..]);
      AllPairsHexSplit(h);
    }
  }

  /** Every pair parses exactly when the first pair does and every pair after it does. */
  lemma AllPairsHexSplit(h: string)
    requires |h| >= 2 && |h| % 2 == 0
    ensures AllPairsHex(h) <==> PairValue(h[0], h[1]).Some? && AllPairsHex(h[2..])
  {
    var t := h[2..];
    if AllPairsHex(h) {
      assert PairValue(h[2 * 0], h[2 * 0 + 1]).Some?;
      forall i | 0 <= i < |t| / 2 ensures PairValue(t[2 * i], t[2 * i + 1]).Some? {
        assert PairValue(h[2 * (i + 1)], h[2 * (i + 1) + 1]).Some?;
      }
    }
    if PairValue(h[0], h[1]).Some? && AllPairsHex(t) {
      forall i | 0 <= i < |h| / 2 ensures PairValue(h[2 * i], h[2 * i + 1]).Some? {
        if i > 0 {
          assert PairValue(t[2 * (i - 1)], t[2 * (i - 1) + 1]).Some?;
        }
      }
    }
  }

  lemma {:induction false} DecodeHexContents(h: string)
    requires |h| % 2 == 0
    requires DecodeHex(h).Some?
    ensures |DecodeHex(h).value| * 2 == |h|
    ensures forall i :: 0 <= i < |h| / 2 ==>
              PairValue(h[2 * i], h[2 * i + 1]).Some?
              && DecodeHex(h).value[i] == CharOf(PairValue(h[2 * i], h[2 * i + 1]).value)
    decreases |h|
  {
    if |h| > 0 {
      DecodeHexContents(h[2..]);
      var s := DecodeHex(h).value;
      forall i | 0 <= i < |h| / 2
        ensures PairValue(h[2 * i], h[2 * i + 1]).Some?
        ensures s[i] == CharOf(PairValue(h[2 * i], h[2 * i + 1]).value)
      {
        if i > 0 {
          assert h[2 * i] == h[2..][2 * (i - 1)];
          assert h[2 * i + 1] == h[2..][2 * (i - 1) + 1];
          assert s[i] == DecodeHex(h[2..]).value[i - 1];
        }
      }
    }
  }

  /**
   On an even-length remainder the hex translator succeeds exactly when
   every pair parses as a base-16 number; the key then has half the
   remainder's length and character `i` is the value of pair `i` cast to a
   character.
   */
  lemma HexTranslateContents(key: string, prefix: string)
    requires prefix <= key && (|key| - |prefix|) % 2 == 0
    ensures var hex := key[|prefix|..];
      && (HexTranslate(key, prefix).Translated? <==> AllPairsHex(hex))
      && (!AllPairsHex(hex) ==> HexTranslate(key, prefix) == Rejected(NotHexPair))
    ensures var hex := key[|prefix|..];
      HexTranslate(key, prefix).Translated? ==>
        && 2 * |HexTranslate(key, prefix).key| == |hex|
        && forall i :: 0 <= i < |hex| / 2 ==>
             && PairValue(hex[2 * i], hex[2 * i + 1]).Some?
             && HexTranslate(key, prefix).key[i] == CharOf(PairValue(hex[2 * i], hex[2 * i + 1]).value)
  {
    var hex := key[|prefix|..];
    DecodeHexSucceeds(hex);
    if DecodeHex(hex).Some? {
      DecodeHexContents(hex);
    }
  }

  /** Without a sign character in the remainder, every decoded character is below 256. */
  lemma HexTranslateBelow256(key: string, prefix: string)
    requires prefix <= key && '+' !in key[|prefix|..] && '-' !in key[|prefix|..]
    requires HexTranslate(key, prefix).Translated?
    ensures forall i :: 0 <= i < |HexTranslate(key, prefix).key| ==> HexTranslate(key, prefix).key[i] as int < 256
  {
    var hex := key[|prefix|..];
    var out := HexTranslate(key, prefix).key;
    HexTranslateContents(key, prefix);
    forall i | 0 <= i < |out| ensures out[i] as int < 256 {
      assert hex[2 * i] in hex;
      var v := PairValue(hex[2 * i], hex[2 * i + 1]).value;
      assert 0 <= v < 256;
    }
  }

  /**
   A pair made of a sign and one digit parses too: `-1` becomes the
   character `\uFFFF`, and `+7` the character `\u0007`.
   */
  lemma SignedPairsAccepted()
    ensures HexTranslate("ENV_-1", "ENV_") == Translated([0xFFFF as char])
    ensures HexTranslate("ENV_+7", "ENV_") == Translated([7 as char])
  {
    SinglePair("ENV_", '-', '1', "ENV_-1");
    SinglePair("ENV_", '+', '7', "ENV_+7");
  }

  /** A key whose remainder after the prefix is one pair decodes to that pair's character. */
  lemma SinglePair(prefix: string, hi: char, lo: char, key: string)
    requires key == prefix + [hi, lo] && PairValue(hi, lo).Some?
    ensures HexTranslate(key, prefix) == Translated([CharOf(PairValue(hi, lo).value)])
  {
    var h: string := [hi, lo];
    assert prefix <= key && key[|prefix|..] == h;
    assert h[0] == hi && h[1] == lo && h[2..] == [];
    var c := CharOf(PairValue(hi, lo).value);
    assert DecodeHex(h) == Some([c] + []);
    assert [c] + [] == [c];
  }

  lemma HexDigitRoundTrip(d: nat)
    requires d < 16
    ensures HexDigitValue(HexDigit(d)) == Some(d)
  {
  }

  /** Decoding the two-hex-digit encoding of a string whose characters are all below 256 gives the string back. */
  lemma {:induction false} DecodeEncode(s: string)
    requires forall i :: 0 <= i < |s| ==> s[i] as int < 256
    ensures DecodeHex(EncodeHex(s)) == Some(s)
    decreases |s|
  {
    if |s| > 0 {
      var c := s[0] as int;
      HexDigitRoundTrip(c / 16);
      HexDigitRoundTrip(c % 16);
      var h := EncodeHex(s);
      assert h[2..] == EncodeHex(s[1..]);
      assert PairValue(h[0], h[1]) == Some(c);
      DecodeEncode(s[1..]);
      assert [c as char] + s[1..] == s;
    }
  }

  /** The hex translator inverts the two-hex-digit encoding behind any prefix. */
  lemma HexTranslateRoundTrip(prefix: string, s: string)
    requires forall i :: 0 <= i < |s| ==> s[i] as int < 256
    ensures HexTranslate(prefix + EncodeHex(s), prefix) == Translated(s)
  {
    var hex := EncodeHex(s);
    var key := prefix + hex;
    assert prefix <= key;
    assert key[|prefix|..] == hex;
    assert DecodeHex(hex) == Some(s) by {
      DecodeEncode(s);
    }
  }

  /** `getTranslator` picks the hex translator exactly for a three-letter flavour spelling `hex` in any case. */
  lemma GetTranslatorHexIff(flavor: Option<string>)
    ensures GetTranslator(flavor) == HexTranslator <==>
      && flavor.Some? && |flavor.value| == 3
      && flavor.value[0] in "hH" && flavor.value[1] in "eE" && flavor.value[2] in "xX"
  {
    if flavor.Some? && |flavor.value| == 3 {
      var f := flavor.value;
      var l := LowerAscii(f);
      if l == "hex" {
        assert LowerAsciiChar(f[0]) == 'h' && LowerAsciiChar(f[1]) == 'e' && LowerAsciiChar(f[2]) == 'x';
      }
      if f[0] in "hH" && f[1] in "eE" && f[2] in "xX" {
        assert l[0] == 'h' && l[1] == 'e' && l[2] == 'x';
        assert l == "hex";
      }
    }
  }

  /** No flavour, `default`, or any flavour other than a spelling of `hex` selects the default translator. */
  lemma GetTranslatorDefault(flavor: Option<string>)
    requires flavor.None? || LowerAscii(flavor.value) != "hex"
    ensures GetTranslator(flavor) == DefaultTranslator
  {
  }

  // ---------------------------------------------------------------------
  // Worked examples

  /** Characters other than `_` and `\u0000` pass through the rewrite unchanged. */
  lemma {:induction false} RenamePlainPrefix(a: string, b: string)
    requires '_' !in a && Nul !in a
    ensures Rename(a + b) == a + Rename(b)
    decreases |a|
  {
    if |a| > 0 {
      assert (a + b)[0] == a[0];
      assert (a + b)[1..] == a[1..] + b;
      assert a[0] != '_' && a[0] != Nul;
      assert '_' !in a[1..] && Nul !in a[1..] by {
        assert forall i :: 0 <= i < |a[1..]| ==> a[1..][i] == a[i + 1];
      }
      RenamePlainPrefix(a[1..], b);
    } else {
      assert a + b == b;
    }
  }

  lemma LowerAsciiConcat(a: string, b: string)
    ensures LowerAscii(a + b) == LowerAscii(a) + LowerAscii(b)
  {
  }

  lemma RenameSeparator(sep: string, w: string, out: string)
    requires '_' !in w
    requires (sep == "__" && out == "_") || (sep == "_" && out == ".")
    ensures Rename(sep + w) == out + Rename(w)
  {
    var t := sep + w;
    if sep == "__" {
      assert t[2..] == w;
    } else {
      assert t[1..] == w;
      assert |t| < 2 || t[1] != '_' by {
        if |t| >= 2 {
          assert t[1] == w[0];
        }
      }
    }
  }

  lemma RenameTwoWords(w1: string, sep: string, w2: string, out: string)
    requires '_' !in w1 && Nul !in w1 && '_' !in w2 && Nul !in w2
    requires (sep == "__" && out == "_") || (sep == "_" && out == ".")
    ensures Rename(w1 + sep + w2) == w1 + out + w2
  {
    RenamePlain(w2);
    RenameSeparator(sep, w2, out);
    RenamePlainPrefix(w1, sep + w2);
    Regroup(w1, sep, w2, []);
    Regroup(w1, out, w2, []);
  }

  /** Text without underscores and `\u0000` is its own rename. */
  lemma RenamePlain(w: string)
    requires '_' !in w && Nul !in w
    ensures Rename(w) == w
  {
    var e: string := [];
    RenamePlainPrefix(w, e);
    assert w + e == w;
  }


  /** Renaming and lower-casing `ENV_<w1><sep><w2>` word by word, for words without underscores. */
  lemma TwoWordExample(w1: string, sep: string, w2: string, l1: string, out: string, l2: string, key: string, want: string)
    requires '_' !in w1 && Nul !in w1 && '_' !in w2 && Nul !in w2
    requires (sep == "__" && out == "_") || (sep == "_" && out == ".")
    requires LowerAscii(w1) == l1 && LowerAscii(w2) == l2
    requires key == "ENV_" + w1 + sep + w2 && want == l1 + out + l2
    ensures DefaultTranslate(key, "ENV_") == Some(want)
  {
    var rest := key[4..];
    assert rest == w1 + sep + w2;
    assert DefaultTranslate(key, "ENV_") == Some(LowerAscii(Rename(rest))) by {
      DefaultTranslateIsRename(key, "ENV_");
    }
    assert Rename(rest) == w1 + out + w2 by {
      RenameTwoWords(w1, sep, w2, out);
    }
    assert LowerAscii(w1 + out + w2) == l1 + out + l2 by {
      LowerAsciiConcat(w1 + out, w2);
      LowerAsciiConcat(w1, out);
      assert LowerAscii(out) == out;
    }
  }

  /** `ENV_DATABASE__URL` gives `database_url`: the doubled underscore stays an underscore. */
  lemma DefaultTranslateDoubledExample()
    ensures DefaultTranslate("ENV_DATABASE__URL", "ENV_") == Some("database_url")
  {
    LowerDatabaseUrl();
    TwoWordExample("DATABASE", "__", "URL", "database", "_", "url", "ENV_DATABASE__URL", "database_url");
  }

  /** `ENV_DATABASE_URL` gives `database.url`: a lone underscore becomes a dot. */
  lemma DefaultTranslateSingleExample()
    ensures DefaultTranslate("ENV_DATABASE_URL", "ENV_") == Some("database.url")
  {
    LowerDatabaseUrl();
    TwoWordExample("DATABASE", "_", "URL", "database", ".", "url", "ENV_DATABASE_URL", "database.url");
  }

  /** `ENV_MY__NAME` gives `my_name`. */
  lemma DefaultTranslateNameExample()
    ensures DefaultTranslate("ENV_MY__NAME", "ENV_") == Some("my_name")
  {
    LowerMyName();
    TwoWordExample("MY", "__", "NAME", "my", "_", "name", "ENV_MY__NAME", "my_name");
  }

  lemma LowerDatabaseUrl()
    ensures LowerAscii("DATABASE") == "database" && LowerAscii("URL") == "url"
    ensures '_' !in "DATABASE" && Nul !in "DATABASE" && '_' !in "URL" && Nul !in "URL"
  {
  }

  lemma LowerMyName()
    ensures LowerAscii("MY") == "my" && LowerAscii("NAME") == "name"
    ensures '_' !in "MY" && Nul !in "MY" && '_' !in "NAME" && Nul !in "NAME"
  {
  }

  /** `ENV_6D792E6B6579` decodes to `my.key`. */
  lemma HexTranslateExample()
    ensures HexTranslate("ENV_6D792E6B6579", "ENV_") == Translated("my.key")
  {
    MyKeyEncoding();
    HexTranslateRoundTrip("ENV_", "my.key");
  }

  lemma MyKeyEncoding()
    ensures EncodeHex("my.key") == "6D792E6B6579"
    ensures "ENV_" + "6D792E6B6579" == "ENV_6D792E6B6579"
  {
    MyKeyHalves();
    EncodeHexAppend("my.", "key");
  }

  lemma MyKeyHalves()
    ensures "my." + "key" == "my.key"
    ensures "ENV_" + "6D792E6B6579" == "ENV_6D792E6B6579"
    ensures EncodeHex("my.") == "6D792E" && EncodeHex("key") == "6B6579"
    ensures "6D792E" + "6B6579" == "6D792E6B6579"
  {
    EncodeMy();
    EncodeKey();
  }

  lemma EncodeMy()
    ensures EncodeHex("my.") == "6D792E"
  {
  }

  lemma EncodeKey()
    ensures EncodeHex("key") == "6B6579"
  {
  }

  /** The encoding works character by character, so it distributes over concatenation. */
  lemma {:induction false} EncodeHexAppend(a: string, b: string)
    requires forall i :: 0 <= i < |a| ==> a[i] as int < 256
    requires forall i :: 0 <= i < |b| ==> b[i] as int < 256
    ensures EncodeHex(a + b) == EncodeHex(a) + EncodeHex(b)
    decreases |a|
  {
    if |a| > 0 {
      EncodeHexStep(a);
      AppendBelow256(a, b);
      EncodeHexStep(a + b);
      assert (a + b)[0] == a[0] && (a + b)[1..] == a[1..] + b;
      EncodeHexAppend(a[1..], b);
      Regroup(EncodeHex(a)[..2], EncodeHex(a[1..]), EncodeHex(b), []);
    } else {
      assert a + b == b;
    }
  }

  /** One step of the encoding: the first character's two digits, then the encoding of the rest. */
  lemma EncodeHexStep(s: string)
    requires |s| > 0 && forall i :: 0 <= i < |s| ==> s[i] as int < 256
    ensures forall i :: 0 <= i < |s[1..]| ==> s[1..][i] as int < 256
    ensures EncodeHex(s) == EncodeHex(s)[..2] + EncodeHex(s[1..])
    ensures EncodeHex(s)[..2] == [HexDigit(s[0] as int / 16), HexDigit(s[0] as int % 16)]
  {
    forall i | 0 <= i < |s[1..]| ensures s[1..][i] as int < 256 {
      assert s[1..][i] == s[i + 1];
    }
  }

  lemma AppendBelow256(a: string, b: string)
    requires forall i :: 0 <= i < |a| ==> a[i] as int < 256
    requires forall i :: 0 <= i < |b| ==> b[i] as int < 256
    ensures forall i :: 0 <= i < |a + b| ==> (a + b)[i] as int < 256
  {
    forall i | 0 <= i < |a + b| ensures (a + b)[i] as int < 256 {
      if i < |a| {
        assert (a + b)[i] == a[i];
      } else {
        assert (a + b)[i] == b[i - |a|];
      }
    }
  }
}
