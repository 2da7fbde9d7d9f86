/**
 * Character classes and string transforms shared by the flair normaliser,
 * `clean_one_line` and the position parsing of the slot reconciler.
 */
module Text {

  /** Python's `str.isspace()`, which is also what the `\s` class of a `re`
      pattern on `str` and the argument-less `str.strip()` use. */
  predicate IsWhitespace(c: char) {
    var n := c as int;
    || (0x09 <= n <= 0x0D) || (0x1C <= n <= 0x20) || n == 0x85 || n == 0xA0
    || n == 0x1680 || (0x2000 <= n <= 0x200A) || n == 0x2028 || n == 0x2029
    || n == 0x202F || n == 0x205F || n == 0x3000
  }

  /** ASCII upper-case letters mapped to lower case, every other character kept. */
  function AsciiLower(c: char): (r: char)
    ensures 'A' <= c <= 'Z' ==> 'a' <= r <= 'z' && r as int == c as int + 32
    ensures !('A' <= c <= 'Z') ==> r == c
  {
    if 'A' <= c <= 'Z' then (c as int + 32) as char else c
  }

  /** `[a-z0-9]`. */
  predicate IsKeyChar(c: char) {
    ('a' <= c <= 'z') || ('0' <= c <= '9')
  }

  /** The two character classes whose runs `norm_flair` collapses:
      `\s` and `[^a-z0-9]`. */
  datatype CharClass = Blank | NonKey

  predicate InClass(cls: CharClass, c: char) {
    match cls
    case Blank => IsWhitespace(c)
    case NonKey => !IsKeyChar(c)
  }

  /** The suffix of `s` left after dropping its longest prefix of characters
      in the class. */
  function DropWhile(cls: CharClass, s: seq<char>): (r: seq<char>)
    ensures |r| <= |s|
    ensures |s| > 0 && InClass(cls, s[0]) ==> |r| < |s|
    decreases |s|
  {
    if |s| > 0 && InClass(cls, s[0]) then DropWhile(cls, s[1..]) else s
  }

  /** `DropWhile` removes a prefix made only of characters in the class and
      stops at the first character outside it. */
  lemma {:induction false} DropWhileSpec(cls: CharClass, s: seq<char>)
    ensures var r := DropWhile(cls, s);
      && r == s[|s| - |r|..]
      && (forall k :: 0 <= k < |s| - |r| ==> InClass(cls, s[k]))
      && (|r| > 0 ==> !InClass(cls, r[0]))
    decreases |s|
  {
    if |s| > 0 && InClass(cls, s[0]) {
      DropWhileSpec(cls, s[1..]);
    }
  }

  /** The prefix of `s` left after dropping its longest suffix of characters
      in the class. */
  function DropWhileEnd(cls: CharClass, s: seq<char>): (r: seq<char>)
    decreases |s|
  {
    if |s| > 0 && InClass(cls, s[|s| - 1]) then DropWhileEnd(cls, s[..|s| - 1]) else s
  }

  /** `DropWhileEnd` removes a suffix made only of characters in the class
      and stops at the last character outside it. */
  lemma {:induction false} DropWhileEndSpec(cls: CharClass, s: seq<char>)
    ensures var r := DropWhileEnd(cls, s);
      && |r| <= |s| && r == s[..|r|]
      && (forall k :: |r| <= k < |s| ==> InClass(cls, s[k]))
      && (|r| > 0 ==> !InClass(cls, r[|r| - 1]))
    decreases |s|
  {
    if |s| > 0 && InClass(cls, s[|s| - 1]) {
      DropWhileEndSpec(cls, s[..|s| - 1]);
    }
  }

  /** Where `Strip(s)` starts inside `s`. */
  function StripOffset(s: seq<char>): nat {
    |s| - |DropWhile(Blank, s)|
  }

  /** Python's argument-less `str.strip()`. */
  function Strip(s: seq<char>): seq<char> {
    DropWhileEnd(Blank, DropWhile(Blank, s))
  }

  /** `Strip` keeps exactly the slice of `s` between its leading and
      trailing whitespace: neither end of the result is whitespace, a string
      without whitespace at its ends is unchanged, and an all-blank one
      becomes empty. */
  lemma StripSpec(s: seq<char>)
    ensures var r := Strip(s);
      && (|r| > 0 ==> !IsWhitespace(r[0]) && !IsWhitespace(r[|r| - 1]))
      && StripOffset(s) + |r| <= |s| && r == s[StripOffset(s)..StripOffset(s) + |r|]
      && (forall k :: 0 <= k < StripOffset(s) ==> IsWhitespace(s[k]))
      && (forall k :: StripOffset(s) + |r| <= k < |s| ==> IsWhitespace(s[k]))
      && ((|s| == 0 || (!IsWhitespace(s[0]) && !IsWhitespace(s[|s| - 1]))) ==> r == s)
      && ((forall k :: 0 <= k < |s| ==> IsWhitespace(s[k])) ==> r == [])
  {
    StripSlice(s);
    StripEdges(s);
  }

  /** The slice half of `StripSpec`. */
  lemma StripSlice(s: seq<char>)
    ensures var r := Strip(s);
      && (|r| > 0 ==> !IsWhitespace(r[0]) && !IsWhitespace(r[|r| - 1]))
      && StripOffset(s) + |r| <= |s| && r == s[StripOffset(s)..StripOffset(s) + |r|]
      && (forall k :: 0 <= k < StripOffset(s) ==> IsWhitespace(s[k]))
      && (forall k :: StripOffset(s) + |r| <= k < |s| ==> IsWhitespace(s[k]))
  {
    var t := DropWhile(Blank, s);
    var r := DropWhileEnd(Blank, t);
    DropWhileSpec(Blank, s);
    DropWhileEndSpec(Blank, t);
    assert r == s[|s| - |t|..|s| - |t| + |r|];
    assert forall k :: |s| - |t| + |r| <= k < |s| ==> s[k] == t[k - (|s| - |t|)];
    if |r| > 0 {
      assert r[0] == t[0];
    }
  }

  /** The two edge cases of `StripSpec`, read off the slice. */
  lemma StripEdges(s: seq<char>)
    ensures var r := Strip(s);
      && ((|s| == 0 || (!IsWhitespace(s[0]) && !IsWhitespace(s[|s| - 1]))) ==> r == s)
      && ((forall k :: 0 <= k < |s| ==> IsWhitespace(s[k])) ==> r == [])
  {
    var r, o := Strip(s), StripOffset(s);
    StripSlice(s);
    if |s| > 0 && !IsWhitespace(s[0]) && !IsWhitespace(s[|s| - 1]) {
      assert o == 0;
      assert o + |r| == |s|;
    }
    if |r| > 0 {
      assert r[0] == s[o];
    }
  }

  /** No two adjacent spaces. */
  predicate NoDoubleSpace(s: seq<char>) {
    forall k :: 0 <= k < |s| - 1 ==> !(s[k] == ' ' && s[k + 1] == ' ')
  }

  /** `re.sub(C + "+", " ", s)` for the character class `C`: every maximal
      run of characters in the class becomes one space and everything else
      is kept in place. */
  function CollapseRuns(cls: CharClass, s: seq<char>): seq<char>
    decreases |s|
  {
    if s == [] then []
    else if !InClass(cls, s[0]) then [s[0]] + CollapseRuns(cls, s[1..])
    else [' '] + CollapseRuns(cls, DropWhile(cls, s))
  }

  /** After collapsing, every character is a space or outside the class, and
      since both classes contain the space no two spaces are adjacent. */
  lemma {:induction false} CollapseRunsShape(cls: CharClass, s: seq<char>)
    ensures var r := CollapseRuns(cls, s);
      && (forall k :: 0 <= k < |r| ==> r[k] == ' ' || !InClass(cls, r[k]))
      && (s == [] <==> r == [])
      && (|s| > 0 && !InClass(cls, s[0]) ==> r[0] == s[0])
      && NoDoubleSpace(r)
    decreases |s|
  {
    if s != [] {
      if !InClass(cls, s[0]) {
        CollapseRunsShape(cls, s[1..]);
      } else {
        var rest := DropWhile(cls, s);
        DropWhileSpec(cls, s);
        CollapseRunsShape(cls, rest);
      }
    }
  }

  /** A string whose only characters of the class are single spaces is left
      unchanged by collapsing. */
  lemma {:induction false} CollapseRunsFixed(cls: CharClass, s: seq<char>)
    requires forall k :: 0 <= k < |s| ==> s[k] == ' ' || !InClass(cls, s[k])
    requires NoDoubleSpace(s)
    ensures CollapseRuns(cls, s) == s
    decreases |s|
  {
    if s != [] {
      var tail := s[1..];
      assert forall k :: 0 <= k < |tail| ==> tail[k] == s[k + 1];
      CollapseRunsFixed(cls, tail);
      if InClass(cls, s[0]) {
        CollapseRunsSpace(cls, s);
      }
      assert s == [s[0]] + tail;
    }
  }

  /** Collapsing a single space that is not followed by another character
      of the class keeps it. */
  lemma CollapseRunsSpace(cls: CharClass, s: seq<char>)
    requires |s| > 0 && s[0] == ' ' && InClass(cls, s[0])
    requires |s| > 1 ==> s[1] != ' ' && !InClass(cls, s[1])
    ensures CollapseRuns(cls, s) == [' '] + CollapseRuns(cls, s[1..])
  {
    assert DropWhile(cls, s) == DropWhile(cls, s[1..]);
    assert DropWhile(cls, s[1..]) == s[1..];
  }

  /** The characters of `s` outside the class, in their order. */
  function OutsideClass(cls: CharClass, s: seq<char>): (r: seq<char>)
    ensures |r| <= |s|
    decreases |s|
  {
    if s == [] then []
    else (if InClass(cls, s[0]) then [] else [s[0]]) + OutsideClass(cls, s[1..])
  }

  /** Dropping a leading run of the class drops nothing outside it. */
  lemma {:induction false} DropWhileOutside(cls: CharClass, s: seq<char>)
    ensures OutsideClass(cls, DropWhile(cls, s)) == OutsideClass(cls, s)
    decreases |s|
  {
    if |s| > 0 && InClass(cls, s[0]) {
      DropWhileOutside(cls, s[1..]);
    }
  }

  /** Collapsing keeps every character outside the class, in order: with
      the characters of the class removed, the result and the input are the
      same sequence. */
  lemma {:induction false} CollapseRunsKeepsOutside(cls: CharClass, s: seq<char>)
    ensures OutsideClass(cls, CollapseRuns(cls, s)) == OutsideClass(cls, s)
    decreases |s|
  {
    if s != [] {
      var c := CollapseRuns(cls, s);
      if !InClass(cls, s[0]) {
        CollapseRunsKeepsOutside(cls, s[1..]);
        assert c[0] == s[0] && c[1..] == CollapseRuns(cls, s[1..]);
      } else {
        var rest := DropWhile(cls, s);
        CollapseRunsKeepsOutside(cls, rest);
        DropWhileOutside(cls, s);
        assert c[0] == ' ' && c[1..] == CollapseRuns(cls, rest);
      }
    }
  }

  /** Every character of `s` is in the class. */
  predicate AllInClass(cls: CharClass, s: seq<char>) {
    forall k :: 0 <= k < |s| ==> InClass(cls, s[k])
  }

  /** A whole run of the class collapses to a single space. */
  lemma CollapseWholeRun(cls: CharClass, s: seq<char>)
    requires |s| > 0 && AllInClass(cls, s)
    ensures CollapseRuns(cls, s) == [' ']
  {
    DropWhileAll(cls, s);
  }

  lemma {:induction false} DropWhileAll(cls: CharClass, s: seq<char>)
    requires AllInClass(cls, s)
    ensures DropWhile(cls, s) == []
    decreases |s|
  {
    if s != [] {
      assert AllInClass(cls, s[1..]) by {
        assert forall k :: 0 <= k < |s[1..]| ==> s[1..][k] == s[k + 1];
      }
      DropWhileAll(cls, s[1..]);
    }
  }

  /** A run boundary lies between `a` and `b`: one of them is empty, or
      the last character of `a` or the first of `b` is outside the class. */
  predicate RunBoundary(cls: CharClass, a: seq<char>, b: seq<char>) {
    a == [] || b == [] || !InClass(cls, a[|a| - 1]) || !InClass(cls, b[0])
  }

  /** Dropping a leading run is unaffected by what follows, unless the run
      reaches the end of `a` and continues into `b`. */
  lemma {:induction false} DropWhileAppend(cls: CharClass, a: seq<char>, b: seq<char>)
    requires !AllInClass(cls, a) || b == [] || !InClass(cls, b[0])
    ensures DropWhile(cls, a + b) == DropWhile(cls, a) + b
    decreases |a|
  {
    if a == [] {
      assert a + b == b;
    } else if InClass(cls, a[0]) {
      assert (a + b)[0] == a[0];
      assert (a + b)[1..] == a[1..] + b;
      DropWhileAppend(cls, a[1..], b);
    }
  }

  /** Collapsing splits at every run boundary: it works run by run, so
      each maximal run of the class becomes one space and the rest is kept
      as it is. */
  lemma {:induction false} CollapseRunsAppend(cls: CharClass, a: seq<char>, b: seq<char>)
    requires RunBoundary(cls, a, b)
    ensures CollapseRuns(cls, a + b) == CollapseRuns(cls, a) + CollapseRuns(cls, b)
    decreases |a|, 1
  {
    if a == [] {
      assert a + b == b;
    } else if b == [] {
      assert a + b == a;
    } else {
      var ab := a + b;
      assert ab[0] == a[0];
      if !InClass(cls, a[0]) {
        assert ab[1..] == a[1..] + b;
        if |a| > 1 {
          assert a[1..][|a[1..]| - 1] == a[|a| - 1];
        }
        CollapseRunsAppend(cls, a[1..], b);
      } else {
        CollapseRunsAppendRun(cls, a, b);
      }
    }
  }

  /** What is left after dropping a leading run still ends as `s` does. */
  lemma DropWhileLast(cls: CharClass, s: seq<char>)
    ensures DropWhile(cls, s) != [] ==> DropWhile(cls, s)[|DropWhile(cls, s)| - 1] == s[|s| - 1]
  {
    DropWhileSpec(cls, s);
  }

  /** The case of `CollapseRunsAppend` where `a` starts with a run. */
  lemma {:induction false} CollapseRunsAppendRun(cls: CharClass, a: seq<char>, b: seq<char>)
    requires a != [] && b != [] && InClass(cls, a[0]) && RunBoundary(cls, a, b)
    ensures CollapseRuns(cls, a + b) == CollapseRuns(cls, a) + CollapseRuns(cls, b)
    decreases |a|, 0
  {
    var rest := DropWhile(cls, a);
    var tail := CollapseRuns(cls, rest + b);
    assert CollapseRuns(cls, a + b) == [' '] + tail by {
      assert (a + b)[0] == a[0];
      DropWhileAppend(cls, a, b);
    }
    assert tail == CollapseRuns(cls, rest) + CollapseRuns(cls, b) by {
      DropWhileLast(cls, a);
      CollapseRunsAppend(cls, rest, b);
    }
    assert CollapseRuns(cls, a) == [' '] + CollapseRuns(cls, rest);
  }

  /** `pre` is a prefix of `s` (Python's `s.startswith(pre)`). */
  predicate StartsWith(s: seq<char>, pre: seq<char>) {
    |pre| <= |s| && s[..|pre|] == pre
  }

  /** `pat` occurs in `s` (Python's `pat in s`). */
  predicate Contains(s: seq<char>, pat: seq<char>)
    decreases |s|
  {
    StartsWith(s, pat) || (|s| > 0 && Contains(s[1..], pat))
  }

  /** A pattern placed anywhere in a string is found by `Contains`. */
  lemma {:induction false} ContainsInfix(a: seq<char>, pat: seq<char>, b: seq<char>)
    ensures Contains(a + pat + b, pat)
    decreases |a|
  {
    if a == [] {
      assert (a + pat + b)[..|pat|] == pat;
    } else {
      ContainsInfix(a[1..], pat, b);
      assert (a + pat + b)[1..] == a[1..] + pat + b;
    }
  }

  /** `pat` is the slice of `s` starting at `i`. */
  predicate OccursAt(s: seq<char>, pat: seq<char>, i: nat) {
    i + |pat| <= |s| && s[i..i + |pat|] == pat
  }

  /** Whatever `Contains` finds occurs at some position of the string. */
  lemma {:induction false} ContainsAt(s: seq<char>, pat: seq<char>) returns (i: nat)
    requires Contains(s, pat)
    ensures OccursAt(s, pat, i)
    decreases |s|
  {
    if StartsWith(s, pat) {
      i := 0;
    } else {
      var j := ContainsAt(s[1..], pat);
      i := j + 1;
      assert s[1..][j..j + |pat|] == s[i..i + |pat|];
    }
  }

  /** A slice equal to `pat` is found by `Contains`. */
  lemma OccursContains(s: seq<char>, pat: seq<char>, i: nat)
    requires OccursAt(s, pat, i)
    ensures Contains(s, pat)
  {
    assert s == s[..i] + pat + s[i + |pat|..];
    ContainsInfix(s[..i], pat, s[i + |pat|..]);
  }

  /** `pat` occurs in `s` exactly when it is a slice of `s`. */
  lemma ContainsIff(s: seq<char>, pat: seq<char>)
    ensures Contains(s, pat) <==> exists i: nat :: OccursAt(s, pat, i)
  {
    if Contains(s, pat) {
      var i := ContainsAt(s, pat);
    }
    if i: nat :| OccursAt(s, pat, i) {
      OccursContains(s, pat, i);
    }
  }

  /** The number of `[a-z0-9]` characters. */
  function KeyCount(s: seq<char>): (r: nat)
    ensures r <= |s|
    decreases |s|
  {
    if s == [] then 0 else (if IsKeyChar(s[0]) then 1 else 0) + KeyCount(s[1..])
  }

  /** An ASCII letter or digit, in either case. */
  predicate IsAlnum(c: char) {
    ('a' <= c <= 'z') || ('A' <= c <= 'Z') || ('0' <= c <= '9')
  }

  /** The number of ASCII letters and digits. */
  function AlnumCount(s: seq<char>): nat
    decreases |s|
  {
    if s == [] then 0 else (if IsAlnum(s[0]) then 1 else 0) + AlnumCount(s[1..])
  }

  lemma {:induction false} KeyCountAppend(a: seq<char>, b: seq<char>)
    ensures KeyCount(a + b) == KeyCount(a) + KeyCount(b)
    decreases |a|
  {
    if a == [] {
      assert a + b == b;
    } else {
      assert (a + b)[0] == a[0];
      assert (a + b)[1..] == a[1..] + b;
      KeyCountAppend(a[1..], b);
    }
  }

  lemma {:induction false} AlnumCountAppend(a: seq<char>, b: seq<char>)
    ensures AlnumCount(a + b) == AlnumCount(a) + AlnumCount(b)
    decreases |a|
  {
    if a == [] {
      assert a + b == b;
    } else {
      assert (a + b)[0] == a[0];
      assert (a + b)[1..] == a[1..] + b;
      AlnumCountAppend(a[1..], b);
    }
  }

  /** Neither class holds a key character. */
  lemma ClassHoldsNoKeyChar(cls: CharClass, c: char)
    requires InClass(cls, c)
    ensures !IsKeyChar(c)
  {
  }

  /** Dropping a leading run of the class keeps every key character. */
  lemma {:induction false} DropWhileKeepsKeys(cls: CharClass, s: seq<char>)
    ensures KeyCount(DropWhile(cls, s)) == KeyCount(s)
    decreases |s|
  {
    if |s| > 0 && InClass(cls, s[0]) {
      ClassHoldsNoKeyChar(cls, s[0]);
      DropWhileKeepsKeys(cls, s[1..]);
    }
  }

  /** Dropping a trailing run of the class keeps every key character. */
  lemma {:induction false} DropWhileEndKeepsKeys(cls: CharClass, s: seq<char>)
    ensures KeyCount(DropWhileEnd(cls, s)) == KeyCount(s)
    decreases |s|
  {
    if |s| > 0 && InClass(cls, s[|s| - 1]) {
      var n := |s| - 1;
      ClassHoldsNoKeyChar(cls, s[n]);
      DropWhileEndKeepsKeys(cls, s[..n]);
      assert s == s[..n] + [s[n]];
      KeyCountAppend(s[..n], [s[n]]);
    }
  }

  /** Collapsing runs of either class keeps every key character. */
  lemma {:induction false} CollapseRunsKeepsKeys(cls: CharClass, s: seq<char>)
    ensures KeyCount(CollapseRuns(cls, s)) == KeyCount(s)
    decreases |s|
  {
    if s != [] {
      if !InClass(cls, s[0]) {
        CollapseRunsKeepsKeys(cls, s[1..]);
        KeyCountAppend([s[0]], CollapseRuns(cls, s[1..]));
      } else {
        DropWhileSpec(cls, s);
        DropWhileKeepsKeys(cls, s);
        CollapseRunsKeepsKeys(cls, DropWhile(cls, s));
        KeyCountAppend([' '], CollapseRuns(cls, DropWhile(cls, s)));
      }
    }
  }

  /** `strip()` keeps every key character. */
  lemma StripKeepsKeys(s: seq<char>)
    ensures KeyCount(Strip(s)) == KeyCount(s)
  {
    DropWhileKeepsKeys(Blank, s);
    DropWhileEndKeepsKeys(Blank, DropWhile(Blank, s));
  }

  /** A run of `n` ASCII letters or digits starting at `i` puts at least
      `n` of them in the string. */
  lemma {:induction false} AlnumRun(s: seq<char>, i: nat, n: nat)
    requires i + n <= |s|
    requires forall k :: i <= k < i + n ==> IsAlnum(s[k])
    ensures AlnumCount(s) >= n
    decreases |s|
  {
    if i > 0 {
      AlnumRun(s[1..], i - 1, n);
    } else if n > 0 {
      AlnumRun(s[1..], 0, n - 1);
    }
  }
}
