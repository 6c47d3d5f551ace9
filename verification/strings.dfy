/**
 * The part of Python's `str` API the transcript pipeline relies on, over Dafny strings
 * (sequences of Unicode scalar values, so `|s|` is Python's `len(s)`).
 *
 * Whitespace is Python's full `str.isspace()` set, which is also what the regex class `\s`
 * matches. Case mapping, letters and digits are ASCII only.
 */
module Strings {
  import opened Seqs

  /** `c.isspace()`, and the characters matched by the regex class `\s`. */
  predicate IsSpace(c: char) {
    || c == ' '
    || ('\t' <= c <= '\r')
    || ('\U{1C}' <= c <= '\U{1F}')
    || c == '\U{85}' || c == '\U{A0}' || c == '\U{1680}'
    || ('\U{2000}' <= c <= '\U{200A}')
    || c == '\U{2028}' || c == '\U{2029}' || c == '\U{202F}' || c == '\U{205F}' || c == '\U{3000}'
  }

  predicate IsUpper(c: char) { 'A' <= c <= 'Z' }
  predicate IsLower(c: char) { 'a' <= c <= 'z' }
  predicate IsLetter(c: char) { IsUpper(c) || IsLower(c) }
  predicate IsDigit(c: char) { '0' <= c <= '9' }

  /** The sentence-ending punctuation `[.!?]` used throughout the pipeline. */
  predicate IsTerminal(c: char) { c == '.' || c == '!' || c == '?' }

  function LowerChar(c: char): char {
    if IsUpper(c) then (c as int + 32) as char else c
  }

  function UpperChar(c: char): char {
    if IsLower(c) then (c as int - 32) as char else c
  }

  /** `s.lower()` */
  function Lower(s: string): (r: string)
    ensures |r| == |s|
    ensures forall i :: 0 <= i < |s| ==> r[i] == LowerChar(s[i])
  {
    seq(|s|, i requires 0 <= i < |s| => LowerChar(s[i]))
  }

  /** `s.isalpha()`: non-empty and all letters. */
  predicate IsAlpha(s: string) {
    s != [] && forall i :: 0 <= i < |s| ==> IsLetter(s[i])
  }

  /** `s.isalnum()`: non-empty and all letters or digits. */
  predicate IsAlnum(s: string) {
    s != [] && forall i :: 0 <= i < |s| ==> IsLetter(s[i]) || IsDigit(s[i])
  }

  predicate HasDigit(s: string) {
    exists i :: 0 <= i < |s| && IsDigit(s[i])
  }

  predicate IsPrefix<T(==)>(a: seq<T>, b: seq<T>) {
    |a| <= |b| && b[..|a|] == a
  }

  predicate IsSuffix<T(==)>(a: seq<T>, b: seq<T>) {
    |a| <= |b| && b[|b| - |a|..] == a
  }

  /** `s.startswith(p)` */
  predicate StartsWith(s: string, p: string) {
    IsPrefix(p, s)
  }

  /** `sub in s` */
  predicate Contains(s: string, sub: string)
    decreases |s|
  {
    StartsWith(s, sub) || (s != [] && Contains(s[1..], sub))
  }

  predicate AllSpace(s: string) {
    forall i :: 0 <= i < |s| ==> IsSpace(s[i])
  }

  /** Neither leading nor trailing whitespace: what `strip()` produces. */
  predicate Stripped(s: string) {
    s == [] || (!IsSpace(s[0]) && !IsSpace(s[|s| - 1]))
  }

  /** `s.lstrip()` */
  function LStrip(s: string): (r: string)
    ensures |r| <= |s| && if |r| < |s| then r == s[|s| - |r|..] else r == s
    ensures AllSpace(s[..|s| - |r|])
    ensures r == [] || !IsSpace(r[0])
    decreases |s|
  {
    if s != [] && IsSpace(s[0]) then
      var r := LStrip(s[1..]);
      assert s[..|s| - |r|] == [s[0]] + s[1..][..|s| - 1 - |r|];
      r
    else s
  }

  /** `lstrip()` keeps a suffix. */
  lemma LStripSuffix(s: string)
    ensures IsSuffix(LStrip(s), s)
  {
    var r := LStrip(s);
    assert s[|s| - |r|..] == r;
  }

  /** `s.rstrip()` */
  function RStrip(s: string): (r: string)
    ensures IsPrefix(r, s)
    ensures AllSpace(s[|r|..])
    ensures r == [] || !IsSpace(r[|r| - 1])
    decreases |s|
  {
    if s != [] && IsSpace(s[|s| - 1]) then
      var r := RStrip(s[..|s| - 1]);
      assert s[|r|..] == s[..|s| - 1][|r|..] + [s[|s| - 1]];
      r
    else s
  }

  /** The number of leading whitespace characters of `s`. */
  function LeadingSpaces(s: string): nat {
    |s| - |LStrip(s)|
  }

  /** `s.strip()`: the input with its leading and trailing whitespace cut off. */
  function Strip(s: string): (r: string)
    ensures StripsTo(s, LeadingSpaces(s), r)
  {
    var l := LStrip(s);
    var r := RStrip(l);
    LStripSuffix(s);
    StripFacts(s, l, r, LeadingSpaces(s));
    r
  }

  /**
   * `r` is `s` with its `i` leading characters and a trailing run cut off, all
   * of them whitespace, and `r` itself neither starts nor ends with whitespace.
   */
  predicate StripsTo(s: string, i: nat, r: string) {
    && Stripped(r)
    && i + |r| <= |s|
    && (if |r| < |s| then r == s[i..i + |r|] else r == s)
    && AllSpace(s[..i]) && AllSpace(s[i + |r|..])
    && (r == [] <==> AllSpace(s))
    && (Stripped(s) ==> r == s)
  }

  /** A run of whitespace between two parts separates their words. */
  lemma SplitGap(t: string, st: nat, i: nat, j: nat)
    requires st <= i < j <= |t| && AllSpace(t[i..j])
    ensures Split(t[st..]) == Split(t[st..i]) + Split(t[j..])
  {
    var gap, rest := t[i..j], t[j..];
    Slices3(t, st, i, j);
    assert Split(gap + rest) == Split(rest) by {
      assert IsSpace(gap[|gap| - 1]);
      SplitConcat(gap, rest);
      SplitAllSpace(gap);
    }
    assert (gap + rest)[0] == gap[0];
    SplitConcat(t[st..i], gap + rest);
  }

  lemma Slices3<T>(t: seq<T>, st: nat, i: nat, j: nat)
    requires st <= i <= j <= |t|
    ensures t[st..] == t[st..i] + (t[i..j] + t[j..])
  {
  }

  /** `strip()` is `lstrip()` then `rstrip()`. */
  lemma StripIsBoth(s: string)
    ensures Strip(s) == RStrip(LStrip(s))
  {
  }

  /** Whitespace around a stripped, non-empty core is exactly what `strip()` removes. */
  lemma StripPadded(a: string, core: string, b: string)
    requires AllSpace(a) && AllSpace(b)
    requires core != [] && Stripped(core)
    ensures Strip(a + core + b) == core
  {
    LStripPadded(a, core, b);
    RStripSpaces(core, b);
    assert RStrip(core) == core;
    StripIsBoth(a + core + b);
  }

  lemma LStripPadded(a: string, core: string, b: string)
    requires AllSpace(a) && core != [] && !IsSpace(core[0])
    ensures LStrip(a + core + b) == core + b
  {
    var t := core + b;
    ConcatAssoc(a, core, b);
    LStripSpaces(a, t);
    assert t[0] == core[0];
  }

  lemma ConcatAssoc<T>(a: seq<T>, b: seq<T>, c: seq<T>)
    ensures a + b + c == a + (b + c)
  {
  }

  /** Leading whitespace is what `lstrip()` removes first. */
  lemma {:induction false} LStripSpaces(a: string, t: string)
    requires AllSpace(a)
    ensures LStrip(a + t) == LStrip(t)
    decreases |a|
  {
    if a != [] {
      assert (a + t)[1..] == a[1..] + t;
      assert IsSpace((a + t)[0]);
      LStripSpaces(a[1..], t);
    } else {
      assert a + t == t;
    }
  }

  /** Trailing whitespace is what `rstrip()` removes first. */
  lemma {:induction false} RStripSpaces(t: string, b: string)
    requires AllSpace(b)
    ensures RStrip(t + b) == RStrip(t)
    decreases |b|
  {
    if b != [] {
      assert (t + b)[..|t + b| - 1] == t + b[..|b| - 1];
      RStripSpaces(t, b[..|b| - 1]);
    } else {
      assert t + b == t;
    }
  }

  /** `strip()` leaves a string without surrounding whitespace as it is. */
  lemma StrippedFixed(s: string)
    requires Stripped(s)
    ensures Strip(s) == s
  {
    assert StripsTo(s, LeadingSpaces(s), Strip(s));
  }

  /** Stripping keeps a last character that is not whitespace. */
  lemma StripKeepsLast(s: string)
    requires s != [] && !IsSpace(s[|s| - 1])
    ensures Strip(s) != [] && Strip(s)[|Strip(s)| - 1] == s[|s| - 1]
  {
    var i, r := LeadingSpaces(s), Strip(s);
    SpaceTailEmpty(s, i + |r|);
    assert r == s[i..|s|];
  }

  /** Only the empty suffix of a string ending in a non-space is all whitespace. */
  lemma SpaceTailEmpty(s: string, j: nat)
    requires j <= |s| && AllSpace(s[j..])
    requires s != [] && !IsSpace(s[|s| - 1])
    ensures j == |s|
  {
    SliceLast(s, j);
  }

  lemma SliceLast<T>(s: seq<T>, j: nat)
    ensures j < |s| ==> s[j..][|s| - j - 1] == s[|s| - 1]
  {
  }

  /** What `Strip` ensures, from what `LStrip` and `RStrip` ensure. */
  lemma StripFacts(s: string, l: string, r: string, i: nat)
    requires i == |s| - |l|
    requires IsSuffix(l, s) && AllSpace(s[..i]) && (l == [] || !IsSpace(l[0]))
    requires IsPrefix(r, l) && AllSpace(l[|r|..]) && (r == [] || !IsSpace(r[|r| - 1]))
    ensures StripsTo(s, i, r)
  {
    assert l == s[i..];
    assert s[i..i + |r|] == r;
    assert s[i + |r|..] == l[|r|..];
    if r != [] {
      assert r[0] == l[0];
    }
    if r == [] {
      assert l[|r|..] == l;
      assert s == s[..i] + l;
    }
    if r != [] {
      assert r[0] == s[i];
    }
    if i > 0 {
      assert s[..i][0] == s[0];
    }
    if |r| < |l| {
      assert l[|r|..][|l| - |r| - 1] == l[|l| - 1];
    }
  }

  /** `Strip` in terms of positions: the kept characters sit between two all-space margins. */
  lemma StripIndices(s: string)
    ensures var i, r := LeadingSpaces(s), Strip(s);
      && (forall m :: 0 <= m < i ==> IsSpace(s[m]))
      && (forall m :: i + |r| <= m < |s| ==> IsSpace(s[m]))
      && (forall m :: 0 <= m < |r| ==> r[m] == s[i + m])
  {
    var i, r := LeadingSpaces(s), Strip(s);
    assert forall m :: 0 <= m < i ==> s[m] == s[..i][m];
    assert forall m :: i + |r| <= m < |s| ==> s[m] == s[i + |r|..][m - i - |r|];
  }

  lemma StrippedSuffixByIndices(x: string, y: string, sx: string, sy: string, i: nat, j: nat)
    requires IsSuffix(y, x)
    requires i + |sx| <= |x| && j + |sy| <= |y|
    requires forall m :: 0 <= m < j ==> IsSpace(y[m])
    requires forall m :: i + |sx| <= m < |x| ==> IsSpace(x[m])
    requires forall m :: j + |sy| <= m < |y| ==> IsSpace(y[m])
    requires forall m :: 0 <= m < i ==> IsSpace(x[m])
    requires forall m :: 0 <= m < |sx| ==> sx[m] == x[i + m]
    requires forall m :: 0 <= m < |sy| ==> sy[m] == y[j + m]
    requires Stripped(sx) && Stripped(sy)
    ensures IsSuffix(sy, sx)
  {
    var k := |x| - |y|;
    assert forall m :: 0 <= m < |y| ==> y[m] == x[k + m];
    if sy != [] {
      var e, f := i + |sx|, j + |sy|;
      assert !IsSpace(x[k + f - 1]) by { assert x[k + f - 1] == sy[|sy| - 1]; }
      assert k + f - 1 < e;
      assert !IsSpace(x[k + j]) by { assert x[k + j] == sy[0]; }
      assert k + j >= i;
      assert !IsSpace(x[e - 1]) by { assert x[e - 1] == sx[|sx| - 1]; }
      assert y[e - 1 - k] == x[e - 1];
      assert k + f >= e;
      assert forall m :: 0 <= m < |sy| ==> sx[|sx| - |sy| + m] == sy[m];
      assert sx[|sx| - |sy|..] == sy;
    }
  }

  /** Stripping a suffix of a string gives a suffix of the stripped string. */
  lemma StripOfSuffix(x: string, y: string)
    requires IsSuffix(y, x)
    ensures IsSuffix(Strip(y), Strip(x))
  {
    StripIndices(x);
    StripIndices(y);
    StrippedSuffixByIndices(x, y, Strip(x), Strip(y), LeadingSpaces(x), LeadingSpaces(y));
  }

  /** A maximal run of non-space characters: one item of `s.split()`. */
  predicate IsWord(w: string) {
    w != [] && forall i :: 0 <= i < |w| ==> !IsSpace(w[i])
  }

  /** The end of the run of non-space characters that starts at `i`. */
  function WordEnd(s: string, i: nat): (j: nat)
    requires i <= |s|
    ensures i <= j <= |s|
    ensures forall k :: i <= k < j ==> !IsSpace(s[k])
    ensures j < |s| ==> IsSpace(s[j])
    decreases |s| - i
  {
    if i == |s| || IsSpace(s[i]) then i else WordEnd(s, i + 1)
  }

  /** `s.split()`: the maximal runs of non-space characters, in order. */
  function Split(s: string): (r: seq<string>)
    ensures forall k :: 0 <= k < |r| ==> IsWord(r[k])
    decreases |s|
  {
    if s == [] then []
    else if IsSpace(s[0]) then Split(s[1..])
    else
      var j := WordEnd(s, 1);
      [s[..j]] + Split(s[j..])
  }

  /** Every word takes at least one character. */
  lemma {:induction false} SplitCountBound(s: string)
    ensures |Split(s)| <= |s|
    decreases |s|
  {
    if s != [] {
      if IsSpace(s[0]) {
        SplitCountBound(s[1..]);
      } else {
        SplitCountBound(s[WordEnd(s, 1)..]);
      }
    }
  }

  /** The number of whitespace-separated words, `len(s.split())`. */
  function WordCount(s: string): nat {
    |Split(s)|
  }

  /** `sep.join(xs)` */
  function Join(xs: seq<string>, sep: string): string
    decreases |xs|
  {
    if xs == [] then ""
    else if |xs| == 1 then xs[0]
    else xs[0] + sep + Join(xs[1..], sep)
  }

  /** A join led by a non-empty string is not empty. */
  lemma JoinLeadNonEmpty(xs: seq<string>, sep: string)
    requires xs != [] && xs[0] != []
    ensures Join(xs, sep) != []
  {
    if |xs| > 1 {
      assert |Join(xs, sep)| >= |xs[0]|;
    }
  }

  lemma JoinAppend(xs: seq<string>, y: string, sep: string)
    requires xs != []
    ensures Join(xs + [y], sep) == Join(xs, sep) + sep + y
    decreases |xs|
  {
    if |xs| == 1 {
      assert xs + [y] == [xs[0], y];
    } else {
      assert (xs + [y])[1..] == xs[1..] + [y];
      JoinAppend(xs[1..], y, sep);
    }
  }

  /** Joining two non-empty lists is joining each and putting the separator between. */
  lemma {:induction false} JoinConcat(a: seq<string>, b: seq<string>, sep: string)
    requires a != [] && b != []
    ensures Join(a + b, sep) == Join(a, sep) + sep + Join(b, sep)
    decreases |a|
  {
    if |a| == 1 {
      assert (a + b)[1..] == b;
    } else {
      assert (a + b)[1..] == a[1..] + b;
      JoinConcat(a[1..], b, sep);
    }
  }

  /** Splitting at a whitespace boundary splits the words. */
  lemma {:induction false} SplitConcat(a: string, b: string)
    requires a == [] || b == [] || IsSpace(a[|a| - 1]) || IsSpace(b[0])
    ensures Split(a + b) == Split(a) + Split(b)
    decreases |a|
  {
    if a == [] {
      assert a + b == b;
    } else if IsSpace(a[0]) {
      assert (a + b)[1..] == a[1..] + b;
      SplitConcat(a[1..], b);
    } else {
      var j := WordEnd(a, 1);
      var j' := WordEnd(a + b, 1);
      if j < |a| {
        assert IsSpace((a + b)[j]);
      } else {
        assert b == [] || IsSpace(a[|a| - 1]) || IsSpace(b[0]);
        assert !IsSpace(a[|a| - 1]);
      }
      assert j' == j;
      assert (a + b)[..j] == a[..j];
      assert (a + b)[j..] == a[j..] + b;
      SplitConcat(a[j..], b);
    }
  }

  lemma SplitWord(w: string)
    requires IsWord(w)
    ensures Split(w) == [w]
  {
    assert WordEnd(w, 1) == |w|;
    assert w[..|w|] == w;
    assert w[|w|..] == [];
  }

  lemma {:induction false} SplitAllSpace(s: string)
    requires AllSpace(s)
    ensures Split(s) == []
    decreases |s|
  {
    if s != [] {
      SplitAllSpace(s[1..]);
    }
  }

  /** Joining words with single spaces and splitting again gives the words back. */
  lemma {:induction false} SplitJoin(ws: seq<string>)
    requires forall k :: 0 <= k < |ws| ==> IsWord(ws[k])
    ensures Split(Join(ws, " ")) == ws
    decreases |ws|
  {
    if ws == [] {
    } else if |ws| == 1 {
      SplitWord(ws[0]);
    } else {
      var rest := Join(ws[1..], " ");
      assert Join(ws, " ") == ws[0] + (" " + rest);
      SplitConcat(ws[0], " " + rest);
      SplitWord(ws[0]);
      assert (" " + rest)[1..] == rest;
      SplitJoin(ws[1..]);
      assert ws == [ws[0]] + ws[1..];
    }
  }

  /** Words joined by single spaces form a stripped string, empty exactly when there are no words. */
  lemma {:induction false} JoinWordsStripped(ws: seq<string>)
    requires forall k :: 0 <= k < |ws| ==> IsWord(ws[k])
    ensures Stripped(Join(ws, " "))
    ensures Join(ws, " ") == [] <==> ws == []
    decreases |ws|
  {
    if |ws| > 1 {
      JoinWordsStripped(ws[1..]);
    }
  }

  lemma SplitStripped(s: string)
    ensures Split(Strip(s)) == Split(s)
  {
    SplitAround(s, Strip(s), LeadingSpaces(s));
  }

  /** Whitespace around a text adds no words. */
  lemma SplitAround(s: string, r: string, i: nat)
    requires i + |r| <= |s| && r == s[i..i + |r|]
    requires AllSpace(s[..i]) && AllSpace(s[i + |r|..])
    ensures Split(r) == Split(s)
  {
    Cut3(s, r, i);
    SplitPadded(s, s[..i], r, s[i + |r|..]);
  }

  lemma SplitPadded(s: string, a: string, r: string, b: string)
    requires AllSpace(a) && AllSpace(b) && s == a + (r + b)
    ensures Split(s) == Split(r)
  {
    SplitAllSpace(a);
    SplitAllSpace(b);
    SplitConcat(r, b);
    assert Split(r + b) == Split(r);
    SplitConcat(a, r + b);
  }

  lemma Cut3<T>(s: seq<T>, r: seq<T>, i: nat)
    requires i + |r| <= |s| && r == s[i..i + |r|]
    ensures s == s[..i] + (r + s[i + |r|..])
  {
  }

  /** Removing every occurrence of `pat`, scanning left to right: `s.replace(pat, "")`. */
  function Delete(s: string, pat: string): (r: string)
    requires pat != []
    ensures |r| <= |s|
    ensures forall k :: 0 <= k < |r| ==> r[k] in s
    ensures |pat| == 1 ==> pat[0] !in r
    ensures !Contains(s, pat) ==> r == s
    decreases |s|
  {
    if |s| < |pat| then
      assert |pat| == 1 ==> s == [];
      s
    else if s[..|pat|] == pat then
      Delete(s[|pat|..], pat)
    else
      [s[0]] + Delete(s[1..], pat)
  }

  /** `s.replace(a, b)` for single characters. */
  function ReplaceChar(s: string, a: char, b: char): (r: string)
    ensures |r| == |s|
    ensures forall i :: 0 <= i < |s| ==> r[i] == if s[i] == a then b else s[i]
  {
    seq(|s|, i requires 0 <= i < |s| => if s[i] == a then b else s[i])
  }

  function DigitChar(d: nat): char
    requires d < 10
  {
    ('0' as int + d) as char
  }

  /** `str(n)` for a natural number. */
  function NatToString(n: nat): (r: string)
    ensures r != []
    ensures forall i :: 0 <= i < |r| ==> IsDigit(r[i])
    decreases n
  {
    if n < 10 then [DigitChar(n)] else NatToString(n / 10) + [DigitChar(n % 10)]
  }

  /** `str(n)` for an integer. */
  function IntToString(n: int): string {
    if n < 0 then "-" + NatToString(-n) else NatToString(n)
  }

  /** Reads a string of decimal digits back: the inverse of `NatToString`. */
  function ParseNat(s: string): nat
    requires forall i :: 0 <= i < |s| ==> IsDigit(s[i])
    decreases |s|
  {
    if s == [] then 0
    else
      assert IsDigit(s[|s| - 1]);
      10 * ParseNat(s[..|s| - 1]) + (s[|s| - 1] as int - '0' as int)
  }

  lemma {:induction false} ParseNatToString(n: nat)
    ensures ParseNat(NatToString(n)) == n
    decreases n
  {
    if n >= 10 {
      var s := NatToString(n);
      assert s[..|s| - 1] == NatToString(n / 10);
      ParseNatToString(n / 10);
    }
  }

  /** `str(n)` is injective: distinct numbers print differently. */
  lemma NatToStringInjective(m: nat, n: nat)
    requires NatToString(m) == NatToString(n)
    ensures m == n
  {
    ParseNatToString(m);
    ParseNatToString(n);
  }

  function TitleFrom(s: string, afterLetter: bool): (r: string)
    ensures |r| == |s|
    ensures forall i :: 0 <= i < |s| ==> LowerChar(r[i]) == LowerChar(s[i])
    ensures forall i :: 0 <= i < |s| && !IsLetter(s[i]) ==> r[i] == s[i]
    ensures 0 < |s| && IsLetter(s[0]) ==> if afterLetter then IsLower(r[0]) else IsUpper(r[0])
    ensures forall i :: 0 < i < |s| && IsLetter(s[i]) ==> if IsLetter(s[i - 1]) then IsLower(r[i]) else IsUpper(r[i])
    decreases |s|
  {
    if s == [] then []
    else
      var c := s[0];
      var c' := if !IsLetter(c) then c else if afterLetter then LowerChar(c) else UpperChar(c);
      var rest := TitleFrom(s[1..], IsLetter(c));
      assert forall i :: 1 <= i < |s| ==> s[1..][i - 1] == s[i];
      [c'] + rest
  }

  /**
   * `s.title()`: every letter that follows a non-letter is upper-cased, every other letter is
   * lower-cased, and nothing else changes.
   */
  function Title(s: string): (r: string)
    ensures |r| == |s|
    ensures forall i :: 0 <= i < |s| ==> LowerChar(r[i]) == LowerChar(s[i])
    ensures forall i :: 0 <= i < |s| && !IsLetter(s[i]) ==> r[i] == s[i]
    ensures forall i :: 0 <= i < |s| && IsLetter(s[i]) ==>
              if i > 0 && IsLetter(s[i - 1]) then IsLower(r[i]) else IsUpper(r[i])
  {
    TitleFrom(s, false)
  }

  /** The words of each text, in order. */
  function SplitEach(ts: seq<string>): (wss: seq<seq<string>>)
    ensures |wss| == |ts| && forall i :: 0 <= i < |ts| ==> wss[i] == Split(ts[i])
  {
    seq(|ts|, i requires 0 <= i < |ts| => Split(ts[i]))
  }

  /** Joining texts with spaces keeps every word of every text, and merges none. */
  lemma {:induction false} SplitJoinSpace(ts: seq<string>)
    ensures Split(Join(ts, " ")) == Flatten(SplitEach(ts))
    decreases |ts|
  {
    if |ts| == 1 {
      assert SplitEach(ts)[1..] == [];
      assert Flatten(SplitEach(ts)) == Split(ts[0]);
    } else if |ts| > 1 {
      var rest := Join(ts[1..], " ");
      assert Join(ts, " ") == ts[0] + (" " + rest);
      SplitConcat(ts[0], " " + rest);
      assert (" " + rest)[1..] == rest;
      SplitJoinSpace(ts[1..]);
      assert SplitEach(ts)[1..] == SplitEach(ts[1..]);
    }
  }

  // ---------------------------------------------------------------------------------------------
  // Infixes
  // ---------------------------------------------------------------------------------------------

  /** `t` occurs in `s` as a contiguous piece starting at `i`. */
  predicate InfixAt(t: string, s: string, i: nat) {
    i + |t| <= |s| && s[i..i + |t|] == t
  }

  /** `t` occurs in `s` as a contiguous piece. */
  ghost predicate Infix(t: string, s: string) {
    exists i: nat :: InfixAt(t, s, i)
  }

  lemma InfixSelf(s: string)
    ensures Infix(s, s)
  {
    assert InfixAt(s, s, 0);
  }

  lemma InfixOfSuffix(t: string, s: string, j: nat)
    requires j <= |s| && t == s[j..]
    ensures Infix(t, s)
  {
    assert InfixAt(t, s, j);
  }

  lemma InfixOfPrefix(t: string, s: string)
    requires IsPrefix(t, s)
    ensures Infix(t, s)
  {
    assert InfixAt(t, s, 0);
  }

  lemma InfixStrip(s: string)
    ensures Infix(Strip(s), s)
  {
    assert InfixAt(Strip(s), s, LeadingSpaces(s));
  }

  lemma InfixTrans(a: string, b: string, c: string)
    requires Infix(a, b) && Infix(b, c)
    ensures Infix(a, c)
  {
    var i: nat :| InfixAt(a, b, i);
    var j: nat :| InfixAt(b, c, j);
    forall k | 0 <= k < |a| ensures c[j + i + k] == a[k] {
      assert c[j..j + |b|][i + k] == b[i + k];
      assert b[i..i + |a|][k] == a[k];
    }
    assert InfixAt(a, c, j + i);
  }

  /** Cutting a string after position `j` keeps at most its words. */
  lemma {:induction false} SplitPrefixCount(s: string, j: nat)
    requires j <= |s|
    ensures |Split(s[..j])| <= |Split(s)|
    decreases |s|
  {
    if j > 0 {
      if IsSpace(s[0]) {
        assert s[..j][1..] == s[1..][..j - 1];
        SplitPrefixCount(s[1..], j - 1);
      } else {
        var w := WordEnd(s, 1);
        if j <= w {
          assert IsWord(s[..j]);
          SplitWord(s[..j]);
        } else {
          assert s[..j] == s[..w] + s[w..][..j - w];
          SplitConcat(s[..w], s[w..][..j - w]);
          assert IsWord(s[..w]);
          SplitWord(s[..w]);
          SplitPrefixCount(s[w..], j - w);
        }
      }
    }
  }

  /** Cutting a string before position `i` keeps at most its words. */
  lemma {:induction false} SplitSuffixCount(s: string, i: nat)
    requires i <= |s|
    ensures |Split(s[i..])| <= |Split(s)|
    decreases |s|
  {
    if i > 0 {
      if IsSpace(s[0]) {
        SplitSuffixCount(s[1..], i - 1);
        SuffixAfterSpace(s, i);
      } else {
        var w := WordEnd(s, 1);
        if i >= w {
          SplitSuffixCount(s[w..], i - w);
          SuffixAfterWord(s, i, w);
        } else {
          WordTailCount(s, i, w);
          SuffixAfterWord(s, w, w);
        }
      }
    }
  }

  lemma SuffixAfterSpace(s: string, i: nat)
    requires 0 < i <= |s| && IsSpace(s[0])
    requires |Split(s[1..][i - 1..])| <= |Split(s[1..])|
    ensures |Split(s[i..])| <= |Split(s)|
  {
    assert s[i..] == s[1..][i - 1..];
  }

  lemma SuffixAfterWord(s: string, i: nat, w: nat)
    requires s != [] && !IsSpace(s[0]) && w == WordEnd(s, 1) <= i <= |s|
    requires |Split(s[w..][i - w..])| <= |Split(s[w..])|
    ensures |Split(s[i..])| < |Split(s)|
  {
    assert s[i..] == s[w..][i - w..];
  }

  /** A text starting inside its first word has that word's tail and the words after it. */
  lemma WordTailCount(s: string, i: nat, w: nat)
    requires 0 < i < w <= |s| && (w == |s| || IsSpace(s[w]))
    requires forall k :: i <= k < w ==> !IsSpace(s[k])
    ensures |Split(s[i..])| == 1 + |Split(s[w..])|
  {
    var a, b := s[i..w], s[w..];
    assert s[i..] == a + b;
    assert IsWord(a);
    SplitConcat(a, b);
    SplitWord(a);
  }

  /** A piece of a string has at most as many words as the string. */
  lemma SplitInfixCount(t: string, s: string)
    requires Infix(t, s)
    ensures |Split(t)| <= |Split(s)|
  {
    var i: nat :| InfixAt(t, s, i);
    var p := s[..i + |t|];
    SplitPrefixCount(s, i + |t|);
    InfixSlices(t, s, i);
    SplitSuffixCount(p, i);
  }

  lemma InfixSlices(t: string, s: string, i: nat)
    requires InfixAt(t, s, i)
    ensures i <= |s[..i + |t|]| && t == s[..i + |t|][i..]
  {
  }

  /** Strings with whitespace in the same places have the same number of words. */
  lemma {:induction false} SplitSamePattern(a: string, b: string)
    requires |a| == |b|
    requires forall k :: 0 <= k < |a| ==> (IsSpace(a[k]) <==> IsSpace(b[k]))
    ensures |Split(a)| == |Split(b)|
    decreases |a|
  {
    if a != [] {
      if IsSpace(a[0]) {
        SplitSamePattern(a[1..], b[1..]);
      } else {
        var w := WordEnd(a, 1);
        WordEndSamePattern(a, b, 1);
        SplitSamePattern(a[w..], b[w..]);
      }
    }
  }

  lemma {:induction false} WordEndSamePattern(a: string, b: string, i: nat)
    requires i <= |a| == |b|
    requires forall k :: 0 <= k < |a| ==> (IsSpace(a[k]) <==> IsSpace(b[k]))
    ensures WordEnd(a, i) == WordEnd(b, i)
    decreases |a| - i
  {
    if i < |a| && !IsSpace(a[i]) {
      WordEndSamePattern(a, b, i + 1);
    }
  }

  /** Lower-casing keeps the number of words. */
  lemma LowerWordCount(s: string)
    ensures |Split(Lower(s))| == |Split(s)|
  {
    SplitSamePattern(Lower(s), s);
  }

  /** A non-space character appended to a word ends that word; the number of words stays. */
  lemma {:induction false} AppendCharWords(s: string, c: char)
    requires s != [] && !IsSpace(s[|s| - 1]) && !IsSpace(c)
    ensures |Split(s + [c])| == |Split(s)|
    decreases |s|
  {
    var t := s + [c];
    if IsSpace(s[0]) {
      assert t[1..] == s[1..] + [c];
      AppendCharWords(s[1..], c);
    } else {
      var w := WordEnd(s, 1);
      if w == |s| {
        assert IsWord(s);
        SplitWord(s);
        assert IsWord(t);
        SplitWord(t);
      } else {
        WordEndAppend(s, c, 1);
        assert t[..w] == s[..w];
        assert t[w..] == s[w..] + [c];
        AppendCharWords(s[w..], c);
      }
    }
  }

  lemma {:induction false} WordEndAppend(s: string, c: char, i: nat)
    requires i <= |s| && WordEnd(s, i) < |s|
    ensures WordEnd(s + [c], i) == WordEnd(s, i)
    decreases |s| - i
  {
    if !IsSpace(s[i]) {
      WordEndAppend(s, c, i + 1);
    }
  }
}
