/**
 * The regular-expression passes behind `TextProcessor.clean_text`: whitespace normalisation,
 * removal of a word alternation such as the spoken fillers, and removal of bracketed and
 * parenthesised asides. Each pass is one left-to-right `re.sub`; the passes are stated for any
 * list of alternatives, and `Fillers` is the processor's list.
 */
module Cleaning {
  import opened Wrappers
  import opened Strings

  // ---------------------------------------------------------------------------------------------
  // Whitespace: re.sub(r'\s+', ' ', text).strip()
  // ---------------------------------------------------------------------------------------------

  /** The end of the run of whitespace that starts at `i`. */
  function SpaceEnd(s: string, i: nat): (j: nat)
    requires i <= |s|
    ensures i <= j <= |s|
    ensures forall k :: i <= k < j ==> IsSpace(s[k])
    ensures j < |s| ==> !IsSpace(s[j])
    decreases |s| - i
  {
    if i == |s| || !IsSpace(s[i]) then i else SpaceEnd(s, i + 1)
  }

  /** The only whitespace is the plain space, and no two spaces are adjacent. */
  predicate SingleSpaced(s: string) {
    && (forall k :: 0 <= k < |s| && IsSpace(s[k]) ==> s[k] == ' ')
    && (forall k :: 0 <= k < |s| - 1 ==> !(s[k] == ' ' && s[k + 1] == ' '))
  }

  /** What `Normalize` produces: single-spaced with no whitespace at either end. */
  predicate Normalized(s: string) {
    Stripped(s) && SingleSpaced(s)
  }

  /** `re.sub(r'\s+', ' ', s)`: every maximal run of whitespace becomes one space. */
  function Collapse(s: string): (r: string)
    ensures |r| <= |s|
    ensures r == [] <==> s == []
    ensures s != [] ==> (r[0] == ' ' <==> IsSpace(s[0]))
    decreases |s|
  {
    if s == [] then []
    else if IsSpace(s[0]) then [' '] + Collapse(s[SpaceEnd(s, 1)..])
    else
      var j := WordEnd(s, 1);
      s[..j] + Collapse(s[j..])
  }

  /** The result of `Collapse` is single-spaced. */
  lemma {:induction false} CollapseSingleSpaced(s: string)
    ensures SingleSpaced(Collapse(s))
    decreases |s|
  {
    if s != [] {
      if IsSpace(s[0]) {
        var rest := Collapse(s[SpaceEnd(s, 1)..]);
        CollapseSingleSpaced(s[SpaceEnd(s, 1)..]);
        var r := [' '] + rest;
        assert forall k :: 1 <= k < |r| ==> r[k] == rest[k - 1];
      } else {
        var j := WordEnd(s, 1);
        var rest := Collapse(s[j..]);
        CollapseSingleSpaced(s[j..]);
        var r := s[..j] + rest;
        assert forall k :: j <= k < |r| ==> r[k] == rest[k - j];
        assert forall k :: 0 <= k < j ==> r[k] == s[k];
      }
    }
  }

  /** Every character of `Collapse(s)` other than the space comes from `s`. */
  lemma {:induction false} CollapseChars(s: string, c: char)
    requires c != ' ' && c in Collapse(s)
    ensures c in s
    decreases |s|
  {
    if IsSpace(s[0]) {
      var j := SpaceEnd(s, 1);
      assert c in Collapse(s[j..]);
      CollapseChars(s[j..], c);
    } else {
      var j := WordEnd(s, 1);
      if c !in s[..j] {
        assert c in Collapse(s[j..]);
        CollapseChars(s[j..], c);
      }
      assert s == s[..j] + s[j..];
    }
  }

  /** Collapsing whitespace keeps the words. */
  lemma {:induction false} CollapseWords(s: string)
    ensures Split(Collapse(s)) == Split(s)
    decreases |s|
  {
    if s != [] {
      if IsSpace(s[0]) {
        var j := SpaceEnd(s, 1);
        CollapseWords(s[j..]);
        SplitSpaceCons(Collapse(s[j..]));
        SplitSkipSpaces(s, j);
      } else {
        var j := WordEnd(s, 1);
        var rest := Collapse(s[j..]);
        CollapseWords(s[j..]);
        assert j < |s| ==> s[j..][0] == s[j];
        SplitWordThen(s[..j], rest);
      }
    }
  }

  /** A leading space adds no word. */
  lemma SplitSpaceCons(rest: string)
    ensures Split([' '] + rest) == Split(rest)
  {
    assert ([' '] + rest)[1..] == rest;
  }

  /** A leading run of whitespace adds no word. */
  lemma {:induction false} SplitSkipSpaces(s: string, j: nat)
    requires 0 < j <= |s|
    requires forall k :: 0 <= k < j ==> IsSpace(s[k])
    ensures Split(s) == Split(s[j..])
    decreases j
  {
    if j > 1 {
      assert IsSpace(s[1..][0]);
      SplitSkipSpaces(s[1..], j - 1);
      assert s[1..][j - 1..] == s[j..];
    }
  }

  /** A word followed by whitespace or nothing is the first word. */
  lemma SplitWordThen(w: string, rest: string)
    requires IsWord(w) && (rest == [] || IsSpace(rest[0]))
    ensures Split(w + rest) == [w] + Split(rest)
  {
    SplitConcat(w, rest);
    SplitWord(w);
  }

  /** A normalised string is its words joined by single spaces. */
  lemma {:induction false} NormalizedIsJoinedWords(t: string)
    requires Normalized(t)
    ensures t == Join(Split(t), " ")
    decreases |t|
  {
    if t != [] {
      var j := WordEnd(t, 1);
      if j == |t| {
        LoneWord(t);
      } else {
        NormalizedRest(t, j);
        NormalizedIsJoinedWords(t[j + 1..]);
        JoinedCons(t, j, t[j + 1..]);
      }
    }
  }

  lemma LoneWord(t: string)
    requires t != [] && !IsSpace(t[0]) && WordEnd(t, 1) == |t|
    ensures t == Join(Split(t), " ")
  {
    assert IsWord(t);
    SplitWord(t);
  }

  /** After the first word of a normalised string come one space and a normalised rest. */
  lemma NormalizedRest(t: string, j: nat)
    requires Normalized(t) && t != [] && j == WordEnd(t, 1) < |t|
    ensures j + 1 < |t| && t[j] == ' ' && Normalized(t[j + 1..])
  {
    assert IsSpace(t[j]);
    assert j < |t| - 1;
    var u := t[j + 1..];
    assert u[|u| - 1] == t[|t| - 1];
    assert !IsSpace(u[0]) by {
      assert u[0] == t[j + 1];
      assert !(t[j] == ' ' && t[j + 1] == ' ');
    }
    assert forall k :: 0 <= k < |u| ==> u[k] == t[j + 1 + k];
  }

  /** The first word, one space, and a rest that is its own words joined. */
  lemma JoinedCons(t: string, j: nat, u: string)
    requires t != [] && !IsSpace(t[0]) && j == WordEnd(t, 1) && j + 1 < |t| && t[j] == ' '
    requires u == t[j + 1..] && !IsSpace(u[0]) && u == Join(Split(u), " ")
    ensures t == Join(Split(t), " ")
  {
    assert Split(t) == [t[..j]] + Split(t[j..]);
    assert t[j..][1..] == u;
    assert Split(t[j..]) == Split(u);
    assert Split(u) != [] by {
      assert WordEnd(u, 1) >= 1;
    }
    assert t == t[..j] + " " + u;
  }

  /** `re.sub(r'\s+', ' ', s).strip()` */
  function Normalize(s: string): (r: string)
    ensures Normalized(r)
    ensures |r| <= |s|
  {
    var c := Collapse(s);
    CollapseSingleSpaced(s);
    StripIndices(c);
    Strip(c)
  }

  /** Normalising joins the words of the input with single spaces: `" ".join(s.split())`. */
  lemma NormalizeIsJoinedWords(s: string)
    ensures Normalize(s) == Join(Split(s), " ")
  {
    var r := Normalize(s);
    NormalizedIsJoinedWords(r);
    SplitStripped(Collapse(s));
    CollapseWords(s);
  }

  /** A string is a fixed point of `Normalize` exactly when it is already normalised. */
  lemma NormalizeFixpoints(s: string)
    ensures Normalize(s) == s <==> Normalized(s)
  {
    NormalizeIsJoinedWords(s);
    if Normalized(s) {
      NormalizedIsJoinedWords(s);
    }
  }

  // ---------------------------------------------------------------------------------------------
  // Fillers: re.sub(r'\b(um|uh|ah|er|erm|like|basically|you know|i mean)\b', '', text, flags=re.I)
  // ---------------------------------------------------------------------------------------------

  /** The alternatives of the filler pattern of `clean_text`, in the order the regex tries them. */
  const Fillers: seq<string> := ["um", "uh", "ah", "er", "erm", "like", "basically", "you know", "i mean"]

  /** A character of the regex class `\w`. */
  predicate IsWordChar(c: char) {
    IsLetter(c) || IsDigit(c) || c == '_'
  }

  /** `\b` before position `p`, given that `s[p]` is a word character. */
  predicate BoundaryBefore(s: string, p: nat)
    requires p <= |s|
  {
    p == 0 || !IsWordChar(s[p - 1])
  }

  /** `\b` at position `q`, given that `s[q-1]` is a word character. */
  predicate BoundaryAfter(s: string, q: nat)
    requires q <= |s|
  {
    q == |s| || !IsWordChar(s[q])
  }

  /** The lower-case word `f` occurs at `p`, ignoring the case of `s`. */
  predicate MatchesAt(s: string, p: nat, f: string)
    requires p <= |s|
    decreases |f|
  {
    f == [] || (p < |s| && LowerChar(s[p]) == f[0] && MatchesAt(s, p + 1, f[1..]))
  }

  /** Filler `f` matches case-insensitively at `p`, with a word boundary on both sides. */
  predicate FillerMatch(s: string, p: nat, f: string)
    requires p <= |s|
  {
    && p + |f| <= |s|
    && MatchesAt(s, p, f)
    && BoundaryBefore(s, p)
    && BoundaryAfter(s, p + |f|)
  }

  /** The length of the first alternative in `fs` that matches at `p`. */
  function FirstFiller(s: string, p: nat, fs: seq<string>): (r: Option<nat>)
    requires p <= |s| && NonEmptyAlternatives(fs)
    ensures r.Some? ==> 0 < r.value && p + r.value <= |s|
    decreases |fs|
  {
    if fs == [] then None
    else if FillerMatch(s, p, fs[0]) then Some(|fs[0]|)
    else FirstFiller(s, p, fs[1..])
  }

  /**
   * `FirstFiller` is the regex alternation: it reports the first alternative, in list order, that
   * matches with a boundary at both ends, and reports nothing exactly when none does.
   */
  lemma {:induction false} FirstFillerSpec(s: string, p: nat, fs: seq<string>)
    requires p <= |s| && NonEmptyAlternatives(fs)
    ensures var r := FirstFiller(s, p, fs);
      && (r.Some? ==> exists k :: 0 <= k < |fs| && FillerMatch(s, p, fs[k]) && r.value == |fs[k]| &&
                                 forall m :: 0 <= m < k ==> !FillerMatch(s, p, fs[m]))
      && (r.None? <==> forall k :: 0 <= k < |fs| ==> !FillerMatch(s, p, fs[k]))
    decreases |fs|
  {
    if fs != [] && !FillerMatch(s, p, fs[0]) {
      FirstFillerSpec(s, p, fs[1..]);
      assert forall k :: 1 <= k < |fs| ==> fs[k] == fs[1..][k - 1];
      var r := FirstFiller(s, p, fs);
      if r.Some? {
        var k :| 0 <= k < |fs[1..]| && FillerMatch(s, p, fs[1..][k]) && r.value == |fs[1..][k]| &&
                 forall m :: 0 <= m < k ==> !FillerMatch(s, p, fs[1..][m]);
        assert FillerMatch(s, p, fs[k + 1]) && forall m :: 0 <= m < k + 1 ==> !FillerMatch(s, p, fs[m]);
      }
    }
  }

  /** Every alternative of a pattern is non-empty, so each match consumes input. */
  predicate NonEmptyAlternatives(fs: seq<string>) {
    forall k :: 0 <= k < |fs| ==> fs[k] != []
  }

  /** No alternative of `fs` matches anywhere in `s`. */
  predicate NoMatch(s: string, fs: seq<string>)
    requires NonEmptyAlternatives(fs)
  {
    forall p :: 0 <= p < |s| ==> FirstFiller(s, p, fs).None?
  }

  /** The filler alternatives are non-empty. */
  lemma FillersNonEmpty(fs: seq<string>)
    requires fs == Fillers
    ensures NonEmptyAlternatives(fs)
  {
    forall k | 0 <= k < |fs| ensures fs[k] != [] {
      assert |fs[k]| >= 2;
    }
  }

  /** No filler matches anywhere in `s`. */
  predicate NoFiller(s: string) {
    NoMatch(s, Fillers)
  }

  /**
   * One `re.sub(pattern, '', s)` pass over `s[p..]` for the alternation `fs`, matching against the
   * whole of `s` so that `\b` sees `s[p-1]`.
   */
  function RemoveFrom(s: string, fs: seq<string>, p: nat): (r: string)
    requires p <= |s| && NonEmptyAlternatives(fs)
    ensures |r| <= |s| - p
    decreases |s| - p
  {
    if p == |s| then []
    else
      var f := FirstFiller(s, p, fs);
      if f.Some? then RemoveFrom(s, fs, p + f.value)
      else [s[p]] + RemoveFrom(s, fs, p + 1)
  }

  /** The filler pass only deletes: every character it keeps comes from the scanned part. */
  lemma {:induction false} RemoveFromChars(s: string, fs: seq<string>, p: nat, c: char)
    requires p <= |s| && NonEmptyAlternatives(fs) && c in RemoveFrom(s, fs, p)
    ensures c in s[p..]
    decreases |s| - p
  {
    var f := FirstFiller(s, p, fs);
    if f.Some? {
      RemoveFromChars(s, fs, p + f.value, c);
      assert s[p + f.value..] == s[p..][f.value..];
    } else if c != s[p] {
      RemoveFromChars(s, fs, p + 1, c);
      assert s[p + 1..] == s[p..][1..];
    }
  }

  lemma {:induction false} RemoveFromIdentity(s: string, fs: seq<string>, p: nat)
    requires p <= |s| && NonEmptyAlternatives(fs)
    requires forall q :: p <= q < |s| ==> FirstFiller(s, q, fs).None?
    ensures RemoveFrom(s, fs, p) == s[p..]
    decreases |s| - p
  {
    if p < |s| {
      RemoveFromIdentity(s, fs, p + 1);
      assert s[p..] == [s[p]] + s[p + 1..];
    }
  }

  lemma {:induction false} RemoveFromShrinks(s: string, fs: seq<string>, p: nat, q: nat)
    requires p <= q < |s| && NonEmptyAlternatives(fs) && FirstFiller(s, q, fs).Some?
    ensures |RemoveFrom(s, fs, p)| < |s| - p
    decreases |s| - p
  {
    if FirstFiller(s, p, fs).None? {
      RemoveFromShrinks(s, fs, p + 1, q);
    }
  }

  /** A removal pass changes its input exactly when some alternative occurs in it. */
  lemma RemoveFromFixpoints(s: string, fs: seq<string>)
    requires NonEmptyAlternatives(fs)
    ensures RemoveFrom(s, fs, 0) == s <==> NoMatch(s, fs)
  {
    if NoMatch(s, fs) {
      RemoveFromIdentity(s, fs, 0);
    } else {
      var q :| 0 <= q < |s| && FirstFiller(s, q, fs).Some?;
      RemoveFromShrinks(s, fs, 0, q);
    }
  }

  // ---------------------------------------------------------------------------------------------
  // Asides: re.sub(r'\[.*?\]', '', text) and re.sub(r'\(.*?\)', '', text)
  // ---------------------------------------------------------------------------------------------

  /**
   * Where the lazy `.*?` followed by `close` stops in `t`: the first `close`, provided no line
   * break comes before it (`.` does not match a line break).
   */
  function CloseAt(t: string, close: char): (r: Option<nat>)
    requires close != '\n'
    ensures r.Some? ==> r.value < |t| && t[r.value] == close
    ensures '\n' !in t ==> (r.None? <==> close !in t)
    decreases |t|
  {
    if t == [] then None
    else if t[0] == close then Some(0)
    else if t[0] == '\n' then None
    else match CloseAt(t[1..], close)
      case Some(j) => Some(j + 1)
      case None => None
  }

  /** The aside pass: every `open` with a matching `close` later on its line is cut out with it. */
  function RemoveSpans(s: string, open: char, close: char): (r: string)
    requires close != '\n'
    ensures |r| <= |s|
    ensures forall k :: 0 <= k < |r| ==> r[k] in s
    decreases |s|
  {
    if s == [] then []
    else match (if s[0] == open then CloseAt(s[1..], close) else None)
      case Some(j) => RemoveSpans(s[j + 2..], open, close)
      case None =>
        var rest := RemoveSpans(s[1..], open, close);
        assert forall k :: 0 <= k < |rest| ==> rest[k] in s[1..];
        [s[0]] + rest
  }

  /** No `open` is followed, anywhere later, by `close`. */
  predicate NoPair(s: string, open: char, close: char) {
    forall i, j :: 0 <= i < j < |s| && s[i] == open ==> s[j] != close
  }

  lemma NoPairConcat(u: string, v: string, open: char, close: char)
    requires NoPair(u, open, close) && NoPair(v, open, close)
    requires open in u ==> close !in v
    ensures NoPair(u + v, open, close)
  {
    var w := u + v;
    forall i, j | 0 <= i < j < |w| && w[i] == open ensures w[j] != close {
      if j >= |u| {
        assert w[j] == v[j - |u|];
        if i < |u| {
          assert u[i] == open;
        } else {
          assert w[i] == v[i - |u|];
        }
      }
    }
  }

  /** On a single line, the aside pass leaves no complete aside behind. */
  lemma {:induction false} RemoveSpansNoPair(s: string, open: char, close: char)
    requires close != '\n' && '\n' !in s
    ensures NoPair(RemoveSpans(s, open, close), open, close)
    decreases |s|
  {
    if s != [] {
      var c := if s[0] == open then CloseAt(s[1..], close) else None;
      if c.Some? {
        RemoveSpansNoPair(s[c.value + 2..], open, close);
      } else {
        var rest := RemoveSpans(s[1..], open, close);
        RemoveSpansNoPair(s[1..], open, close);
        NoPairConcat([s[0]], rest, open, close);
      }
    }
  }

  /** The aside pass keeps a property `NoPair` of any other pair of characters. */
  lemma {:induction false} RemoveSpansKeepsNoPair(s: string, open: char, close: char, a: char, b: char)
    requires close != '\n' && NoPair(s, a, b)
    ensures NoPair(RemoveSpans(s, open, close), a, b)
    decreases |s|
  {
    if s != [] {
      var c := if s[0] == open then CloseAt(s[1..], close) else None;
      if c.Some? {
        var t := s[c.value + 2..];
        assert NoPair(t, a, b) by {
          NoPairSuffix(s, c.value + 2, a, b);
        }
        RemoveSpansKeepsNoPair(t, open, close, a, b);
        assert RemoveSpans(s, open, close) == RemoveSpans(t, open, close);
      } else {
        var t := s[1..];
        var rest := RemoveSpans(t, open, close);
        assert NoPair(t, a, b) by {
          NoPairSuffix(s, 1, a, b);
        }
        RemoveSpansKeepsNoPair(t, open, close, a, b);
        assert NoPair([s[0]] + rest, a, b) by {
          KeepFirstNoPair(s, rest, a, b);
        }
        assert RemoveSpans(s, open, close) == [s[0]] + rest;
      }
    }
  }

  lemma NoPairSuffix(s: string, i: nat, a: char, b: char)
    requires i <= |s| && NoPair(s, a, b)
    ensures NoPair(s[i..], a, b)
  {
    var t := s[i..];
    forall p, q | 0 <= p < q < |t| && t[p] == a ensures t[q] != b {
      assert t[p] == s[i + p] && t[q] == s[i + q];
    }
  }

  /** Putting back the first character in front of characters taken from the rest keeps `NoPair`. */
  lemma KeepFirstNoPair(s: string, rest: string, a: char, b: char)
    requires s != [] && NoPair(s, a, b) && NoPair(rest, a, b)
    requires forall k :: 0 <= k < |rest| ==> rest[k] in s[1..]
    ensures NoPair([s[0]] + rest, a, b)
  {
    if s[0] == a {
      forall k | 0 <= k < |rest| ensures rest[k] != b {
        assert rest[k] in s[1..];
        var m :| 0 <= m < |s| - 1 && s[1..][m] == rest[k];
        assert s[m + 1] == rest[k];
      }
    }
    NoPairConcat([s[0]], rest, a, b);
  }

  lemma {:induction false} RemoveSpansIdentity(s: string, open: char, close: char)
    requires close != '\n' && '\n' !in s && NoPair(s, open, close)
    ensures RemoveSpans(s, open, close) == s
    decreases |s|
  {
    if s != [] {
      NoPairAfterOpen(s, open, close);
      NoPairSuffix(s, 1, open, close);
      RemoveSpansIdentity(s[1..], open, close);
      assert s == [s[0]] + s[1..];
    }
  }

  /** Without pairs, nothing after a leading `open` is a `close`. */
  lemma NoPairAfterOpen(s: string, open: char, close: char)
    requires s != [] && NoPair(s, open, close)
    ensures s[0] == open ==> close !in s[1..]
  {
    if s[0] == open {
      forall m | 0 <= m < |s| - 1 ensures s[1..][m] != close {
        assert s[1..][m] == s[m + 1];
      }
    }
  }

  /** Whitespace normalisation keeps `NoPair` for characters that are not whitespace. */
  lemma {:induction false} CollapseKeepsNoPair(s: string, a: char, b: char)
    requires !IsSpace(a) && !IsSpace(b) && NoPair(s, a, b)
    ensures NoPair(Collapse(s), a, b)
    decreases |s|
  {
    if s != [] {
      if IsSpace(s[0]) {
        CollapseKeepsNoPair(s[SpaceEnd(s, 1)..], a, b);
        NoPairConcat([' '], Collapse(s[SpaceEnd(s, 1)..]), a, b);
      } else {
        var j := WordEnd(s, 1);
        var rest := Collapse(s[j..]);
        CollapseKeepsNoPair(s[j..], a, b);
        if b in rest {
          CollapseChars(s[j..], b);
          assert a !in s[..j];
        }
        NoPairConcat(s[..j], rest, a, b);
      }
    }
  }

  lemma NormalizeKeepsNoPair(s: string, a: char, b: char)
    requires !IsSpace(a) && !IsSpace(b) && NoPair(s, a, b)
    ensures NoPair(Normalize(s), a, b)
  {
    CollapseKeepsNoPair(s, a, b);
    StripIndices(Collapse(s));
  }

  // ---------------------------------------------------------------------------------------------
  // clean_text
  // ---------------------------------------------------------------------------------------------

  /** `clean_text` with the filler alternation `fs`. */
  function CleanWith(s: string, fs: seq<string>): (r: string)
    requires NonEmptyAlternatives(fs)
    ensures Normalized(r) && |r| <= |s|
  {
    Normalize(RemoveSpans(RemoveSpans(RemoveFrom(Normalize(s), fs, 0), '[', ']'), '(', ')'))
  }

  lemma CleanWithNoPair(s: string, fs: seq<string>)
    requires NonEmptyAlternatives(fs)
    ensures NoPair(CleanWith(s, fs), '[', ']') && NoPair(CleanWith(s, fs), '(', ')')
  {
    var t0 := Normalize(s);
    var t1 := RemoveFrom(t0, fs, 0);
    NormalizedLacksNewline(t0);
    RemoveFromLacks(t0, fs, '\n');
    SpansRemovedNoPair(t1);
    var t3 := RemoveSpans(RemoveSpans(t1, '[', ']'), '(', ')');
    assert NoPair(Normalize(t3), '[', ']') by {
      NormalizeKeepsNoPair(t3, '[', ']');
    }
    assert NoPair(Normalize(t3), '(', ')') by {
      NormalizeKeepsNoPair(t3, '(', ')');
    }
    assert CleanWith(s, fs) == Normalize(t3);
  }

  /** A normalised string holds no line break. */
  lemma NormalizedLacksNewline(t: string)
    requires Normalized(t)
    ensures '\n' !in t
  {
    forall k | 0 <= k < |t| ensures t[k] != '\n' {
      assert IsSpace(t[k]) ==> t[k] == ' ';
    }
  }

  /** Removing alternatives introduces no character. */
  lemma RemoveFromLacks(s: string, fs: seq<string>, c: char)
    requires NonEmptyAlternatives(fs) && c !in s
    ensures c !in RemoveFrom(s, fs, 0)
  {
    assert s[0..] == s;
    if c in RemoveFrom(s, fs, 0) {
      RemoveFromChars(s, fs, 0, c);
    }
  }

  /** After both span removals, neither bracket pair is left. */
  lemma SpansRemovedNoPair(t1: string)
    requires '\n' !in t1
    ensures var t3 := RemoveSpans(RemoveSpans(t1, '[', ']'), '(', ')');
      NoPair(t3, '[', ']') && NoPair(t3, '(', ')')
  {
    var t2 := RemoveSpans(t1, '[', ']');
    var t3 := RemoveSpans(t2, '(', ')');
    assert NoPair(t2, '[', ']') by {
      RemoveSpansNoPair(t1, '[', ']');
    }
    assert NoPair(t3, '[', ']') by {
      RemoveSpansKeepsNoPair(t2, '(', ')', '[', ']');
    }
    RemoveSpansLacks(t1, '[', ']', '\n');
    RemoveSpansNoPair(t2, '(', ')');
  }

  /** Span removal introduces no character. */
  lemma RemoveSpansLacks(s: string, open: char, close: char, c: char)
    requires close != '\n' && c !in s
    ensures c !in RemoveSpans(s, open, close)
  {
    var r := RemoveSpans(s, open, close);
    forall k | 0 <= k < |r| ensures r[k] != c {
      assert r[k] in s;
    }
  }

  /** A fixed point of cleaning is normalised and free of fillers. */
  lemma CleanWithFixedIsClean(s: string, fs: seq<string>)
    requires NonEmptyAlternatives(fs) && CleanWith(s, fs) == s
    ensures Normalized(s) && NoMatch(s, fs)
  {
    NormalizeFixpoints(s);
    assert Normalize(s) == s;
    var t1 := RemoveFrom(s, fs, 0);
    var t2 := RemoveSpans(t1, '[', ']');
    var t3 := RemoveSpans(t2, '(', ')');
    assert CleanWith(s, fs) == Normalize(t3);
    assert |s| <= |t3| <= |t2| <= |t1|;
    if !NoMatch(s, fs) {
      var q :| 0 <= q < |s| && FirstFiller(s, q, fs).Some?;
      RemoveFromShrinks(s, fs, 0, q);
    }
  }

  /** Cleaning leaves a clean transcript unchanged. */
  lemma CleanWithIdentity(s: string, fs: seq<string>)
    requires NonEmptyAlternatives(fs)
    requires Normalized(s) && NoMatch(s, fs) && NoPair(s, '[', ']') && NoPair(s, '(', ')')
    ensures CleanWith(s, fs) == s
  {
    NormalizeFixpoints(s);
    assert '\n' !in s;
    RemoveFromIdentity(s, fs, 0);
    RemoveSpansIdentity(s, '[', ']');
    RemoveSpansIdentity(s, '(', ')');
  }

  lemma CleanWithFixpoints(s: string, fs: seq<string>)
    requires NonEmptyAlternatives(fs)
    ensures CleanWith(s, fs) == s <==>
      Normalized(s) && NoMatch(s, fs) && NoPair(s, '[', ']') && NoPair(s, '(', ')')
  {
    if CleanWith(s, fs) == s {
      CleanWithFixedIsClean(s, fs);
      CleanWithNoPair(s, fs);
    }
    if Normalized(s) && NoMatch(s, fs) && NoPair(s, '[', ']') && NoPair(s, '(', ')') {
      CleanWithIdentity(s, fs);
    }
  }
}
