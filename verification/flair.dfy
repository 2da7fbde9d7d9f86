/**
 * `norm_flair`: the canonical comparison key of a free-text post flair.
 * The text is NFKD-decomposed, stripped of symbol characters, lower-cased,
 * has every run of characters outside `[a-z0-9]` replaced by one space,
 * and is trimmed.
 */
module Flair {
  import opened Wrappers
  import opened Text

  /** The Unicode database facts the normaliser relies on, per code point:
      its NFKD decomposition, whether its general category starts with "S"
      (`unicodedata.category(ch)[0] == "S"`), and its full lower-case mapping
      (`str.lower`, which may map one character to several). */
  datatype UnicodeTables = UnicodeTables(
    decompose: char -> seq<char>,
    isSymbol: char -> bool,
    lower: char -> seq<char>)

  /** Every character is `[a-z0-9]` or a space. */
  predicate OnlyKeyChars(s: seq<char>) {
    forall k :: 0 <= k < |s| ==> IsKeyChar(s[k]) || s[k] == ' '
  }

  /** The shape of every key: only `a-z`, `0-9` and single spaces, with no
      space at either end. */
  predicate IsCanonicalKey(s: seq<char>) {
    && OnlyKeyChars(s)
    && NoDoubleSpace(s)
    && (|s| > 0 ==> s[0] != ' ' && s[|s| - 1] != ' ')
  }

  /** Tables that map the characters a key is made of to themselves:
      they are not decomposed, not symbols, and already lower case. */
  ghost predicate FixesKeyChars(u: UnicodeTables) {
    forall c :: (IsKeyChar(c) || c == ' ') ==> u.decompose(c) == [c] && !u.isSymbol(c) && u.lower(c) == [c]
  }

  /** The ASCII symbols, i.e. the ASCII characters whose Unicode general
      category is Sc, Sm or Sk. */
  predicate IsAsciiSymbol(c: char) {
    c in "$+<=>^`|~"
  }

  /** Tables that agree with the Unicode database on ASCII: no ASCII
      character decomposes, the ASCII symbols are exactly `$+<=>^`|~`, and
      lower-casing maps `A-Z` to `a-z`. */
  ghost predicate AsciiFaithful(u: UnicodeTables) {
    forall c :: c as int < 128 ==>
      u.decompose(c) == [c] && (u.isSymbol(c) <==> IsAsciiSymbol(c)) && u.lower(c) == [AsciiLower(c)]
  }

  /** Tables faithful on ASCII fix the key characters. */
  lemma AsciiFaithfulFixesKeys(u: UnicodeTables)
    requires AsciiFaithful(u)
    ensures FixesKeyChars(u)
  {
    forall c | IsKeyChar(c) || c == ' '
      ensures u.decompose(c) == [c] && !u.isSymbol(c) && u.lower(c) == [c]
    {
      assert c as int < 128;
      assert !IsAsciiSymbol(c);
    }
  }

  /** NFKD normalisation, character by character. */
  function Decompose(u: UnicodeTables, s: seq<char>): seq<char>
    decreases |s|
  {
    if s == [] then [] else u.decompose(s[0]) + Decompose(u, s[1..])
  }

  /** The characters of `s` whose general category is not a symbol
      category, in their order. */
  function DropSymbols(u: UnicodeTables, s: seq<char>): (r: seq<char>)
    ensures forall k :: 0 <= k < |r| ==> !u.isSymbol(r[k])
    ensures |r| <= |s|
    decreases |s|
  {
    if s == [] then []
    else if u.isSymbol(s[0]) then DropSymbols(u, s[1..])
    else [s[0]] + DropSymbols(u, s[1..])
  }

  /** Symbol removal keeps every occurrence of every other character: each
      non-symbol occurs in the result as often as in the input. */
  lemma {:induction false} DropSymbolsCounts(u: UnicodeTables, s: seq<char>)
    ensures forall c :: multiset(DropSymbols(u, s))[c] == if u.isSymbol(c) then 0 else multiset(s)[c]
    decreases |s|
  {
    if s != [] {
      DropSymbolsCounts(u, s[1..]);
      assert s == [s[0]] + s[1..];
      assert multiset(s) == multiset{s[0]} + multiset(s[1..]);
    }
  }

  /** Dropping symbols works character by character, so it distributes over
      concatenation and keeps the order of what it keeps. */
  lemma {:induction false} DropSymbolsAppend(u: UnicodeTables, a: seq<char>, b: seq<char>)
    ensures DropSymbols(u, a + b) == DropSymbols(u, a) + DropSymbols(u, b)
    decreases |a|
  {
    if a == [] {
      assert a + b == b;
    } else {
      assert (a + b)[0] == a[0];
      assert (a + b)[1..] == a[1..] + b;
      DropSymbolsAppend(u, a[1..], b);
      var head := if u.isSymbol(a[0]) then [] else [a[0]];
      calc {
        DropSymbols(u, a + b);
        head + DropSymbols(u, a[1..] + b);
        head + (DropSymbols(u, a[1..]) + DropSymbols(u, b));
        (head + DropSymbols(u, a[1..])) + DropSymbols(u, b);
      }
    }
  }

  /** A single character is kept exactly when it is not a symbol. */
  lemma DropSymbolsOne(u: UnicodeTables, c: char)
    ensures DropSymbols(u, [c]) == if u.isSymbol(c) then [] else [c]
  {
    assert [c][1..] == [];
  }

  /** Full lower-casing, character by character. */
  function Lower(u: UnicodeTables, s: seq<char>): seq<char>
    decreases |s|
  {
    if s == [] then [] else u.lower(s[0]) + Lower(u, s[1..])
  }

  /** Lower-casing works character by character, so it distributes over
      concatenation. */
  lemma {:induction false} LowerAppend(u: UnicodeTables, a: seq<char>, b: seq<char>)
    ensures Lower(u, a + b) == Lower(u, a) + Lower(u, b)
    decreases |a|
  {
    if a == [] {
      assert a + b == b;
    } else {
      assert (a + b)[0] == a[0];
      assert (a + b)[1..] == a[1..] + b;
      LowerAppend(u, a[1..], b);
    }
  }

  /** On ASCII text, tables faithful on ASCII lower-case exactly `A-Z`,
      one character for one. */
  lemma {:induction false} LowerAscii(u: UnicodeTables, s: seq<char>)
    requires AsciiFaithful(u)
    requires forall k :: 0 <= k < |s| ==> s[k] as int < 128
    ensures |Lower(u, s)| == |s|
    ensures forall k :: 0 <= k < |s| ==> Lower(u, s)[k] == AsciiLower(s[k])
    decreases |s|
  {
    if s != [] {
      LowerAscii(u, s[1..]);
      assert u.lower(s[0]) == [AsciiLower(s[0])];
    }
  }

  /** On ASCII text, tables faithful on ASCII lower-case as `AsciiLower`
      does. */
  lemma LowerAsciiIs(u: UnicodeTables, s: seq<char>, t: seq<char>)
    requires AsciiFaithful(u)
    requires forall k :: 0 <= k < |s| ==> s[k] as int < 128
    requires |t| == |s| && forall k :: 0 <= k < |s| ==> AsciiLower(s[k]) == t[k]
    ensures Lower(u, s) == t
  {
    LowerAscii(u, s);
  }

  /** Every slice of a string of key characters and single spaces is one too. */
  lemma SliceKeepsKeyChars(s: seq<char>, i: nat, j: nat)
    requires i <= j <= |s|
    requires OnlyKeyChars(s) && NoDoubleSpace(s)
    ensures OnlyKeyChars(s[i..j]) && NoDoubleSpace(s[i..j])
  {
    var r := s[i..j];
    assert forall k :: 0 <= k < |r| ==> r[k] == s[i + k];
  }

  /** Trimming a string of key characters and single spaces gives a key. */
  lemma StripGivesKey(s: seq<char>)
    requires OnlyKeyChars(s) && NoDoubleSpace(s)
    ensures IsCanonicalKey(Strip(s))
  {
    var r := Strip(s);
    var o := StripOffset(s);
    StripSpec(s);
    SliceKeepsKeyChars(s, o, o + |r|);
    assert IsWhitespace(' ');
  }

  /** `norm_flair(s)`; `None` is read as the empty string. */
  function NormFlair(u: UnicodeTables, s: Option<seq<char>>): seq<char> {
    var text := Lower(u, DropSymbols(u, Decompose(u, s.GetOr(""))));
    Strip(CollapseRuns(Blank, CollapseRuns(NonKey, text)))
  }

  /** Every normalised flair has the key shape: only `a-z`, `0-9` and single
      spaces, no space at either end; an empty or missing flair gives the
      empty key. */
  lemma NormFlairIsKey(u: UnicodeTables, s: Option<seq<char>>)
    ensures IsCanonicalKey(NormFlair(u, s))
    ensures s.GetOr("") == [] ==> NormFlair(u, s) == []
  {
    var text := Lower(u, DropSymbols(u, Decompose(u, s.GetOr(""))));
    var spaced := CollapseRuns(NonKey, text);
    CollapseRunsShape(NonKey, text);
    assert forall k :: 0 <= k < |spaced| ==> IsKeyChar(spaced[k]) || spaced[k] == ' ' by {
      forall k | 0 <= k < |spaced| ensures IsKeyChar(spaced[k]) || spaced[k] == ' ' {
        assert spaced[k] == ' ' || !InClass(NonKey, spaced[k]);
      }
    }
    assert forall k :: 0 <= k < |spaced| ==> spaced[k] == ' ' || !InClass(Blank, spaced[k]);
    CollapseRunsFixed(Blank, spaced);
    StripGivesKey(spaced);
  }

  lemma {:induction false} DecomposeFixes(u: UnicodeTables, s: seq<char>)
    requires FixesKeyChars(u) && OnlyKeyChars(s)
    ensures Decompose(u, s) == s
    decreases |s|
  {
    if s != [] {
      DecomposeFixes(u, s[1..]);
    }
  }

  lemma {:induction false} DropSymbolsFixes(u: UnicodeTables, s: seq<char>)
    requires FixesKeyChars(u) && OnlyKeyChars(s)
    ensures DropSymbols(u, s) == s
    decreases |s|
  {
    if s != [] {
      DropSymbolsFixes(u, s[1..]);
    }
  }

  lemma {:induction false} LowerFixes(u: UnicodeTables, s: seq<char>)
    requires FixesKeyChars(u) && OnlyKeyChars(s)
    ensures Lower(u, s) == s
    decreases |s|
  {
    if s != [] {
      LowerFixes(u, s[1..]);
    }
  }

  /** Normalising a key gives the key back. */
  lemma {:induction false} NormFlairFixesKeys(u: UnicodeTables, s: seq<char>)
    requires FixesKeyChars(u) && IsCanonicalKey(s)
    ensures NormFlair(u, Some(s)) == s
  {
    DecomposeFixes(u, s);
    DropSymbolsFixes(u, s);
    LowerFixes(u, s);
    var text := Lower(u, DropSymbols(u, Decompose(u, s)));
    assert text == s;
    assert forall k :: 0 <= k < |s| ==> s[k] == ' ' || !InClass(NonKey, s[k]);
    CollapseRunsFixed(NonKey, s);
    assert forall k :: 0 <= k < |s| ==> s[k] == ' ' || !InClass(Blank, s[k]);
    CollapseRunsFixed(Blank, s);
    assert CollapseRuns(Blank, CollapseRuns(NonKey, text)) == s;
    StripSpec(s);
  }

  /** Normalising twice is normalising once. */
  lemma NormFlairIdempotent(u: UnicodeTables, s: Option<seq<char>>)
    requires FixesKeyChars(u)
    ensures NormFlair(u, Some(NormFlair(u, s))) == NormFlair(u, s)
  {
    NormFlairIsKey(u, s);
    NormFlairFixesKeys(u, NormFlair(u, s));
  }

  /** The keys are exactly the strings the normaliser leaves unchanged. */
  lemma NormFlairFixedPoints(u: UnicodeTables, s: seq<char>)
    requires FixesKeyChars(u)
    ensures NormFlair(u, Some(s)) == s <==> IsCanonicalKey(s)
  {
    NormFlairIsKey(u, Some(s));
    if IsCanonicalKey(s) {
      NormFlairFixesKeys(u, s);
    }
  }

  /** Tables faithful on ASCII do not decompose ASCII text. */
  lemma {:induction false} DecomposeAscii(u: UnicodeTables, s: seq<char>)
    requires AsciiFaithful(u)
    requires forall k :: 0 <= k < |s| ==> s[k] as int < 128
    ensures Decompose(u, s) == s
    decreases |s|
  {
    if s != [] {
      DecomposeAscii(u, s[1..]);
      assert u.decompose(s[0]) == [s[0]];
    }
  }

  /** Decomposition never loses an ASCII letter or digit. */
  lemma {:induction false} DecomposeKeepsAlnum(u: UnicodeTables, s: seq<char>)
    requires AsciiFaithful(u)
    ensures AlnumCount(Decompose(u, s)) >= AlnumCount(s)
    decreases |s|
  {
    if s != [] {
      DecomposeKeepsAlnum(u, s[1..]);
      AlnumCountAppend(u.decompose(s[0]), Decompose(u, s[1..]));
      if IsAlnum(s[0]) {
        assert s[0] as int < 128;
        assert u.decompose(s[0]) == [s[0]];
      }
    }
  }

  /** Symbol removal never loses an ASCII letter or digit. */
  lemma {:induction false} DropSymbolsKeepsAlnum(u: UnicodeTables, s: seq<char>)
    requires AsciiFaithful(u)
    ensures AlnumCount(DropSymbols(u, s)) == AlnumCount(s)
    decreases |s|
  {
    if s != [] {
      DropSymbolsKeepsAlnum(u, s[1..]);
      if IsAlnum(s[0]) {
        assert s[0] as int < 128;
        assert !IsAsciiSymbol(s[0]);
      }
      if u.isSymbol(s[0]) {
        assert !IsAlnum(s[0]);
      }
    }
  }

  /** Lower-casing turns every ASCII letter or digit into a key character. */
  lemma {:induction false} LowerKeepsAlnum(u: UnicodeTables, s: seq<char>)
    requires AsciiFaithful(u)
    ensures KeyCount(Lower(u, s)) >= AlnumCount(s)
    decreases |s|
  {
    if s != [] {
      LowerKeepsAlnum(u, s[1..]);
      KeyCountAppend(u.lower(s[0]), Lower(u, s[1..]));
      if IsAlnum(s[0]) {
        assert s[0] as int < 128;
        assert u.lower(s[0]) == [AsciiLower(s[0])];
      }
    }
  }

  /** The key of a flair keeps every ASCII letter and digit of the flair,
      lower-cased: it has at least as many key characters. */
  lemma NormFlairKeepsAlnum(u: UnicodeTables, s: seq<char>)
    requires AsciiFaithful(u)
    ensures KeyCount(NormFlair(u, Some(s))) >= AlnumCount(s)
  {
    var d := Decompose(u, s);
    var e := DropSymbols(u, d);
    var text := Lower(u, e);
    DecomposeKeepsAlnum(u, s);
    DropSymbolsKeepsAlnum(u, d);
    LowerKeepsAlnum(u, e);
    var n1 := CollapseRuns(NonKey, text);
    var n2 := CollapseRuns(Blank, n1);
    CollapseRunsKeepsKeys(NonKey, text);
    CollapseRunsKeepsKeys(Blank, n1);
    StripKeepsKeys(n2);
  }

  /** With tables faithful on ASCII, the key of an ASCII flair without
      symbols is the key of its ASCII lower-case form. */
  lemma AsciiFlairKey(u: UnicodeTables, s: seq<char>, key: seq<char>)
    requires AsciiFaithful(u)
    requires forall k :: 0 <= k < |s| ==> s[k] as int < 128 && !IsAsciiSymbol(s[k])
    requires IsCanonicalKey(key) && |key| == |s| && forall k :: 0 <= k < |s| ==> AsciiLower(s[k]) == key[k]
    ensures NormFlair(u, Some(s)) == key
  {
    AsciiFaithfulFixesKeys(u);
    DecomposeAscii(u, s);
    DropSymbolsNone(u, s);
    LowerAsciiIs(u, s, key);
    NormFlairFixesKeys(u, key);
    DecomposeFixes(u, key);
    DropSymbolsFixes(u, key);
    LowerFixes(u, key);
  }

  /** With tables faithful on ASCII, an ASCII flair without symbols is
      normalised by collapsing the runs of its ASCII lower-case form and
      trimming the result. */
  lemma AsciiNormFlair(u: UnicodeTables, s: seq<char>, lowered: seq<char>)
    requires AsciiFaithful(u)
    requires forall k :: 0 <= k < |s| ==> s[k] as int < 128 && !IsAsciiSymbol(s[k])
    requires |lowered| == |s| && forall k :: 0 <= k < |s| ==> AsciiLower(s[k]) == lowered[k]
    ensures NormFlair(u, Some(s)) == Strip(CollapseRuns(Blank, CollapseRuns(NonKey, lowered)))
  {
    DecomposeAscii(u, s);
    DropSymbolsNone(u, s);
    LowerAsciiIs(u, s, lowered);
  }

  /** `w` is a non-empty word whose ASCII lower case `k` is all key
      characters. */
  predicate AsciiWord(w: seq<char>, k: seq<char>)
  {
    |k| == |w| > 0 && forall i :: 0 <= i < |w| ==> AsciiLower(w[i]) == k[i] && IsKeyChar(k[i])
  }

  /** `sep` is a non-empty run of ASCII characters that are neither symbols
      nor key characters once lower-cased. */
  predicate AsciiSeparator(sep: seq<char>)
  {
    |sep| > 0 && forall i :: 0 <= i < |sep| ==> sep[i] as int < 128 && !IsAsciiSymbol(sep[i]) && !IsKeyChar(AsciiLower(sep[i]))
  }

  /** Two words joined by any separator of ASCII punctuation and blanks
      (no letter, digit or symbol) normalise to the two lower-case words
      joined by one space: "Found/Shared", "Found & Shared" and
      "Found&Shared" share a key. */
  lemma TwoWordFlairKey(u: UnicodeTables, w1: seq<char>, sep: seq<char>, w2: seq<char>, k1: seq<char>, k2: seq<char>)
    requires AsciiFaithful(u)
    requires AsciiWord(w1, k1) && AsciiWord(w2, k2) && AsciiSeparator(sep)
    ensures NormFlair(u, Some(w1 + sep + w2)) == k1 + " " + k2
  {
    var lsep := seq(|sep|, k requires 0 <= k < |sep| => AsciiLower(sep[k]));
    var s, lowered := w1 + sep + w2, k1 + lsep + k2;
    TwoWordLowered(w1, sep, w2, k1, k2, lsep);
    AsciiNormFlair(u, s, lowered);
    TwoWordCollapse(k1, lsep, k2);
    TwoWordIsKey(k1, k2);
    NormFlairFixesKeyShape(k1 + " " + k2);
  }

  /** Every spelling in a list of the same two words, each with its own
      separator, normalises to the one key `key`. */
  lemma SpellingsShareKey(u: UnicodeTables, flairs: seq<string>, seps: seq<string>, w1: string, w2: string, k1: string, k2: string, key: string)
    requires AsciiFaithful(u)
    requires AsciiWord(w1, k1) && AsciiWord(w2, k2) && key == k1 + " " + k2
    requires |seps| == |flairs|
    requires forall i :: 0 <= i < |flairs| ==> AsciiSeparator(seps[i]) && flairs[i] == w1 + seps[i] + w2
    ensures forall i :: 0 <= i < |flairs| ==> NormFlair(u, Some(flairs[i])) == key
  {
    forall i | 0 <= i < |flairs|
      ensures NormFlair(u, Some(flairs[i])) == key
    {
      TwoWordFlairKey(u, w1, seps[i], w2, k1, k2);
    }
  }

  lemma TwoWordLowered(w1: seq<char>, sep: seq<char>, w2: seq<char>, k1: seq<char>, k2: seq<char>, lsep: seq<char>)
    requires |k1| == |w1| && forall k :: 0 <= k < |w1| ==> AsciiLower(w1[k]) == k1[k] && IsKeyChar(k1[k])
    requires |k2| == |w2| && forall k :: 0 <= k < |w2| ==> AsciiLower(w2[k]) == k2[k] && IsKeyChar(k2[k])
    requires forall k :: 0 <= k < |sep| ==> sep[k] as int < 128 && !IsAsciiSymbol(sep[k])
    requires |lsep| == |sep| && forall k :: 0 <= k < |sep| ==> lsep[k] == AsciiLower(sep[k])
    ensures var s, lowered := w1 + sep + w2, k1 + lsep + k2;
      && |lowered| == |s|
      && forall k :: 0 <= k < |s| ==> s[k] as int < 128 && !IsAsciiSymbol(s[k]) && AsciiLower(s[k]) == lowered[k]
  {
    var s, lowered := w1 + sep + w2, k1 + lsep + k2;
    forall k | 0 <= k < |s|
      ensures s[k] as int < 128 && !IsAsciiSymbol(s[k]) && AsciiLower(s[k]) == lowered[k]
    {
      if k < |w1| {
        assert s[k] == w1[k] && lowered[k] == k1[k];
      } else if k < |w1| + |sep| {
        assert s[k] == sep[k - |w1|] && lowered[k] == lsep[k - |w1|];
      } else {
        assert s[k] == w2[k - |w1| - |sep|] && lowered[k] == k2[k - |w1| - |sep|];
      }
    }
  }

  /** Two words of key characters around a run of other characters
      collapse to the words joined by one space. */
  lemma TwoWordCollapse(k1: seq<char>, lsep: seq<char>, k2: seq<char>)
    requires |k1| > 0 && forall k :: 0 <= k < |k1| ==> IsKeyChar(k1[k])
    requires |k2| > 0 && forall k :: 0 <= k < |k2| ==> IsKeyChar(k2[k])
    requires |lsep| > 0 && forall k :: 0 <= k < |lsep| ==> !IsKeyChar(lsep[k])
    ensures CollapseRuns(NonKey, k1 + lsep + k2) == k1 + " " + k2
  {
    CollapseWholeRun(NonKey, lsep);
    CollapseRunsFixed(NonKey, k1);
    CollapseRunsFixed(NonKey, k2);
    CollapseRunsAppend(NonKey, k1, lsep);
    assert (k1 + lsep)[|k1 + lsep| - 1] == lsep[|lsep| - 1];
    CollapseRunsAppend(NonKey, k1 + lsep, k2);
  }

  /** Two non-empty words of key characters joined by one space form a key. */
  lemma TwoWordIsKey(k1: seq<char>, k2: seq<char>)
    requires |k1| > 0 && forall k :: 0 <= k < |k1| ==> IsKeyChar(k1[k])
    requires |k2| > 0 && forall k :: 0 <= k < |k2| ==> IsKeyChar(k2[k])
    ensures IsCanonicalKey(k1 + " " + k2)
  {
    var key := k1 + " " + k2;
    forall k | 0 <= k < |key|
      ensures IsKeyChar(key[k]) || (k == |k1| && key[k] == ' ')
    {
      if k < |k1| {
        assert key[k] == k1[k];
      } else if k > |k1| {
        assert key[k] == k2[k - |k1| - 1];
      }
    }
  }

  /** A canonical key passes both run collapses and the trim unchanged. */
  lemma NormFlairFixesKeyShape(key: seq<char>)
    requires IsCanonicalKey(key)
    ensures CollapseRuns(NonKey, key) == key
    ensures Strip(CollapseRuns(Blank, key)) == key
  {
    CollapseRunsFixed(NonKey, key);
    CollapseRunsFixed(Blank, key);
    StripSpec(key);
  }

  /** Text without symbols passes symbol removal unchanged. */
  lemma {:induction false} DropSymbolsNone(u: UnicodeTables, s: seq<char>)
    requires forall k :: 0 <= k < |s| ==> !u.isSymbol(s[k])
    ensures DropSymbols(u, s) == s
    decreases |s|
  {
    if s != [] {
      DropSymbolsNone(u, s[1..]);
    }
  }
}
