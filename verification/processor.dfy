/**
 * `TextProcessor` (backend/modules/processor.py): transcript cleaning, sentence and section
 * segmentation, keyword extraction, the simplified notes and the assembled processing result.
 */
module Processor {
  import opened Wrappers
  import opened Strings
  import opened Seqs
  import opened Ranking
  import opened Cleaning

  // ---------------------------------------------------------------------------------------------
  // clean_text
  // ---------------------------------------------------------------------------------------------

  /**
   * `clean_text`: the result is stripped, its only whitespace is single plain spaces, and no `[`
   * comes before a `]` and no `(` before a `)`.
   */
  function CleanText(s: string): (r: string)
    ensures Normalized(r)
    ensures |r| <= |s|
    ensures NoPair(r, '[', ']') && NoPair(r, '(', ')')
  {
    FillersNonEmpty(Fillers);
    CleanWithNoPair(s, Fillers);
    CleanWith(s, Fillers)
  }

  /**
   * Cleaning leaves a transcript unchanged exactly when it is already single-spaced and stripped,
   * contains no filler, and contains no bracketed or parenthesised aside.
   */
  lemma CleanTextFixpoints(s: string)
    ensures CleanText(s) == s <==>
      Normalized(s) && NoFiller(s) && NoPair(s, '[', ']') && NoPair(s, '(', ')')
  {
    FillersNonEmpty(Fillers);
    CleanWithFixpoints(s, Fillers);
  }

  // ---------------------------------------------------------------------------------------------
  // segment_by_sentences: re.split(r'[.!?]+', text), stripped, empties dropped
  // ---------------------------------------------------------------------------------------------

  predicate NoTerminal(s: string) {
    forall k :: 0 <= k < |s| ==> !IsTerminal(s[k])
  }

  /** The first sentence terminator at or after `i`, or `|s|`. */
  function FindTerminal(s: string, i: nat): (j: nat)
    requires i <= |s|
    ensures i <= j <= |s|
    ensures forall k :: i <= k < j ==> !IsTerminal(s[k])
    ensures j < |s| ==> IsTerminal(s[j])
    decreases |s| - i
  {
    if i == |s| || IsTerminal(s[i]) then i else FindTerminal(s, i + 1)
  }

  /** The end of the run of terminators that starts at `i`. */
  function SkipTerminals(s: string, i: nat): (j: nat)
    requires i <= |s|
    ensures i <= j <= |s|
    ensures forall k :: i <= k < j ==> IsTerminal(s[k])
    ensures j < |s| ==> !IsTerminal(s[j])
    decreases |s| - i
  {
    if i == |s| || !IsTerminal(s[i]) then i else SkipTerminals(s, i + 1)
  }

  /** Sentences as `segment_by_sentences` yields them: non-empty, stripped, without terminators. */
  predicate SentencePieces(r: seq<string>) {
    forall k :: 0 <= k < |r| ==> r[k] != [] && Stripped(r[k]) && NoTerminal(r[k])
  }

  /** `segment_by_sentences`: the stripped, non-empty pieces between runs of `.`, `!` and `?`. */
  function SegmentBySentences(s: string): (r: seq<string>)
    ensures SentencePieces(r)
    decreases |s|
  {
    var j := FindTerminal(s, 0);
    var piece := Strip(s[..j]);
    PieceNoTerminal(s, j);
    var head := if piece == [] then [] else [piece];
    if j == |s| then head
    else
      var rest := SegmentBySentences(s[SkipTerminals(s, j + 1)..]);
      PiecesConcat(head, rest);
      head + rest
  }

  lemma PiecesConcat(a: seq<string>, b: seq<string>)
    requires SentencePieces(a) && SentencePieces(b)
    ensures SentencePieces(a + b)
  {
    forall k | |a| <= k < |a + b| ensures (a + b)[k] == b[k - |a|] {
    }
  }

  /** The stripped text before the first terminator holds no terminator. */
  lemma PieceNoTerminal(s: string, j: nat)
    requires j <= |s| && forall k :: 0 <= k < j ==> !IsTerminal(s[k])
    ensures NoTerminal(Strip(s[..j]))
  {
    var x := s[..j];
    var piece := Strip(x);
    StripIndices(x);
    forall k | 0 <= k < |piece| ensures !IsTerminal(piece[k]) {
      assert piece[k] == x[LeadingSpaces(x) + k];
    }
  }

  /** `" ".join(p + "." for p in ps)`: sentences written out with a full stop after each. */
  function Dotted(ps: seq<string>): string
    decreases |ps|
  {
    if ps == [] then ""
    else if |ps| == 1 then ps[0] + "."
    else ps[0] + ". " + Dotted(ps[1..])
  }

  /** Leading whitespace in front of a stripped string is exactly what `strip` removes. */
  lemma StripSpacesThen(w: string, p: string)
    requires AllSpace(w) && Stripped(p)
    ensures Strip(w + p) == p
  {
    if p == [] {
      assert w + p == w;
    } else {
      assert w + p + [] == w + p;
      StripPadded(w, p, []);
    }
  }

  /** `FindTerminal` stops at the first terminator. */
  lemma FindTerminalAt(s: string, i: nat, j: nat)
    requires i <= j < |s| && IsTerminal(s[j])
    requires forall k :: i <= k < j ==> !IsTerminal(s[k])
    ensures FindTerminal(s, i) == j
  {
  }

  /** One sentence followed by a full stop, after some whitespace, comes off the front intact. */
  lemma SegmentStep(w: string, p: string, tail: string)
    requires AllSpace(w) && p != [] && Stripped(p) && NoTerminal(p)
    requires tail == [] || tail[0] == ' '
    ensures SegmentBySentences(w + p + "." + tail) == [p] + SegmentBySentences(tail)
  {
    var s := w + p + "." + tail;
    var j := |w + p|;
    StepStops(w, p, tail);
    StepPiece(w, p, tail);
    SegmentUnfold(s);
  }

  /** The full stop after the sentence is the first terminator, and the only one in its run. */
  lemma StepStops(w: string, p: string, tail: string)
    requires AllSpace(w) && NoTerminal(p)
    requires tail == [] || tail[0] == ' '
    ensures var s, j := w + p + "." + tail, |w + p|;
      && j < |s| && FindTerminal(s, 0) == j && SkipTerminals(s, j + 1) == j + 1 && s[j + 1..] == tail
  {
    var wp := w + p;
    var s := wp + ['.'] + tail;
    var j := |wp|;
    assert s[j] == '.';
    forall k | 0 <= k < j ensures !IsTerminal(s[k]) {
      assert s[k] == wp[k];
      if k < |w| {
        assert wp[k] == w[k] && IsSpace(w[k]);
      } else {
        assert wp[k] == p[k - |w|];
      }
    }
    FindTerminalAt(s, 0, j);
    assert s[j + 1..] == tail;
    assert j + 1 < |s| ==> s[j + 1] == tail[0];
    assert w + p + "." + tail == s;
  }

  /** The text before that full stop strips to the sentence. */
  lemma StepPiece(w: string, p: string, tail: string)
    requires AllSpace(w) && Stripped(p)
    ensures var s := w + p + "." + tail; Strip(s[..|w + p|]) == p
  {
    var s := w + p + "." + tail;
    assert s[..|w + p|] == w + p;
    StripSpacesThen(w, p);
  }

  /** One step of the segmentation: a piece up to the first terminator, then the rest. */
  lemma SegmentUnfold(s: string)
    requires FindTerminal(s, 0) < |s|
    ensures var j := FindTerminal(s, 0); var piece := Strip(s[..j]);
      SegmentBySentences(s)
        == (if piece == [] then [] else [piece]) + SegmentBySentences(s[SkipTerminals(s, j + 1)..])
  {
  }

  /**
   * Segmenting sentences written out with full stops gives the sentences back, whatever
   * whitespace precedes them.
   */
  lemma {:induction false} SegmentDotted(w: string, ps: seq<string>)
    requires AllSpace(w)
    requires SentencePieces(ps)
    ensures SegmentBySentences(w + Dotted(ps)) == ps
    decreases |ps|
  {
    if ps == [] {
      assert w + Dotted(ps) == w;
      SegmentAllSpace(w);
    } else {
      if |ps| > 1 {
        PiecesTail(ps);
        SegmentDotted(" ", ps[1..]);
      }
      SegmentDottedCons(w, ps);
    }
  }

  lemma PiecesTail(ps: seq<string>)
    requires ps != [] && SentencePieces(ps)
    ensures SentencePieces(ps[1..])
  {
    assert forall k :: 0 <= k < |ps| - 1 ==> ps[1..][k] == ps[k + 1];
  }

  /** The first sentence comes off the front; the rest segments as it did on its own. */
  lemma SegmentDottedCons(w: string, ps: seq<string>)
    requires AllSpace(w) && ps != [] && SentencePieces(ps)
    requires |ps| > 1 ==> SegmentBySentences(" " + Dotted(ps[1..])) == ps[1..]
    ensures SegmentBySentences(w + Dotted(ps)) == ps
  {
    var p, rest := ps[0], ps[1..];
    var tail := if rest == [] then "" else " " + Dotted(rest);
    DottedHead(w, ps);
    SegmentStep(w, p, tail);
    if rest == [] {
      SegmentAllSpace("");
    }
    HeadTail(ps, p, rest);
  }

  /** The first sentence, its full stop, and the rest after one space. */
  lemma DottedHead(w: string, ps: seq<string>)
    requires ps != []
    ensures w + Dotted(ps) == w + ps[0] + "." + (if |ps| == 1 then "" else " " + Dotted(ps[1..]))
  {
    var p := ps[0];
    if |ps| == 1 {
      assert Dotted(ps) == p + ".";
      AssocEmpty(w, p, ".");
    } else {
      var d := Dotted(ps[1..]);
      assert Dotted(ps) == p + ". " + d;
      AssocSpace(w, p, d);
    }
  }

  lemma AssocEmpty(w: string, p: string, dot: string)
    ensures w + (p + dot) == w + p + dot + ""
  {
  }

  lemma AssocSpace(w: string, p: string, d: string)
    ensures w + (p + ". " + d) == w + p + "." + (" " + d)
  {
    assert ". " == "." + " ";
  }

  /** Whitespace alone holds no sentence. */
  lemma SegmentAllSpace(w: string)
    requires AllSpace(w)
    ensures SegmentBySentences(w) == []
  {
    assert forall k :: 0 <= k < |w| ==> !IsTerminal(w[k]);
    assert FindTerminal(w, 0) == |w|;
    assert w[..|w|] == w;
    SplitAllSpaceStrip(w);
  }

  lemma SplitAllSpaceStrip(w: string)
    requires AllSpace(w)
    ensures Strip(w) == []
  {
  }

  /** The three-sentence example: each sentence comes back without its full stop. */
  lemma SegmentThreeSentences()
    ensures SegmentBySentences(
      "This is sentence one" + ". " + "This is sentence two" + ". " + "And here is sentence three" + ".")
      == ["This is sentence one", "This is sentence two", "And here is sentence three"]
  {
    var a, b, c := "This is sentence one", "This is sentence two", "And here is sentence three";
    ExamplePieces(a, b, c);
    ThreePieces(a, b, c);
    DottedThree(a, b, c);
    SegmentDotted("", [a, b, c]);
  }

  lemma ExamplePieces(a: string, b: string, c: string)
    requires a == "This is sentence one" && b == "This is sentence two"
    requires c == "And here is sentence three"
    ensures a != [] && Stripped(a) && NoTerminal(a)
    ensures b != [] && Stripped(b) && NoTerminal(b)
    ensures c != [] && Stripped(c) && NoTerminal(c)
  {
  }

  lemma ThreePieces(a: string, b: string, c: string)
    requires a != [] && Stripped(a) && NoTerminal(a)
    requires b != [] && Stripped(b) && NoTerminal(b)
    requires c != [] && Stripped(c) && NoTerminal(c)
    ensures SentencePieces([a, b, c])
  {
  }

  lemma DottedThree(a: string, b: string, c: string)
    ensures "" + Dotted([a, b, c]) == a + ". " + b + ". " + c + "."
  {
    assert [a, b, c][1..] == [b, c] && [b, c][1..] == [c];
    assert Dotted([c]) == c + ".";
    assert Dotted([b, c]) == b + ". " + (c + ".");
    assert Dotted([a, b, c]) == a + ". " + (b + ". " + (c + "."));
  }

  // ---------------------------------------------------------------------------------------------
  // segment_by_sections: greedy packing of sentences by total length
  // ---------------------------------------------------------------------------------------------

  /** The summed length of some sentences, `current_length`. */
  function SumLen(ss: seq<string>): nat
    decreases |ss|
  {
    if ss == [] then 0 else SumLen(ss[..|ss| - 1]) + |ss[|ss| - 1]|
  }

  lemma {:induction false} SumLenPrefix(ss: seq<string>, k: nat)
    requires k <= |ss|
    ensures SumLen(ss[..k]) <= SumLen(ss)
    decreases |ss|
  {
    if k < |ss| {
      assert ss[..|ss| - 1][..k] == ss[..k];
      SumLenPrefix(ss[..|ss| - 1], k);
    } else {
      assert ss[..k] == ss;
    }
  }

  /** A section may exceed the limit only when it holds a single sentence. */
  predicate Fits(g: seq<string>, max: int) {
    |g| <= 1 || SumLen(g) <= max
  }

  /**
   * The groups of the greedy packing of `sents`: together they are `sents` in order, none is
   * empty, each fits, and each is closed only because the next sentence would not have fit.
   */
  predicate Greedy(sents: seq<string>, gs: seq<seq<string>>, max: int) {
    Flatten(gs) == sents &&
    (forall i :: 0 <= i < |gs| ==> gs[i] != [] && Fits(gs[i], max)) &&
    (forall i :: 0 <= i < |gs| - 1 ==> SumLen(gs[i]) + |gs[i + 1][0]| > max)
  }

  /** The loop of `segment_by_sections`, from a state holding the open section `cur`. */
  function PackFrom(sents: seq<string>, cur: seq<string>, max: int): (gs: seq<seq<string>>)
    requires Fits(cur, max)
    ensures Greedy(cur + sents, gs, max)
    ensures cur != [] ==> gs != [] && IsPrefix(cur, gs[0])
    decreases |sents|
  {
    if sents == [] then
      assert cur + sents == cur;
      if cur == [] then [] else
        assert Flatten([cur]) == cur + Flatten([]);
        [cur]
    else
      var x := sents[0];
      assert (cur + [x])[..|cur|] == cur;
      if SumLen(cur) + |x| > max && cur != [] then
        var rest := PackFrom(sents[1..], [x], max);
        assert [x] + sents[1..] == sents;
        var gs := [cur] + rest;
        assert Flatten(gs) == cur + Flatten(rest);
        assert gs[1..] == rest;
        gs
      else
        assert cur + [x] + sents[1..] == cur + sents;
        PackFrom(sents[1..], cur + [x], max)
  }

  function Pack(sents: seq<string>, max: int): (gs: seq<seq<string>>)
    ensures Greedy(sents, gs, max)
  {
    assert [] + sents == sents;
    PackFrom(sents, [], max)
  }

  /** The greedy packing is the only one: any grouping with the same properties is `Pack`'s. */
  lemma {:induction false} GreedyUnique(sents: seq<string>, gs: seq<seq<string>>, hs: seq<seq<string>>, max: int)
    requires Greedy(sents, gs, max) && Greedy(sents, hs, max)
    ensures gs == hs
    decreases |gs|
  {
    if gs == [] || hs == [] {
      GreedyEmpty(sents, gs, hs, max);
    } else {
      var g, h := gs[0], hs[0];
      assert sents == g + Flatten(gs[1..]) && sents == h + Flatten(hs[1..]);
      if |g| < |h| {
        GreedyShorterFirst(sents, gs, hs, max);
      } else if |h| < |g| {
        GreedyShorterFirst(sents, hs, gs, max);
      }
      assert g == sents[..|g|] && h == sents[..|h|];
      var rest := sents[|g|..];
      assert Flatten(gs[1..]) == rest && Flatten(hs[1..]) == rest;
      GreedyTail(sents, gs, max);
      GreedyTail(sents, hs, max);
      GreedyUnique(rest, gs[1..], hs[1..], max);
      assert gs == [g] + gs[1..] && hs == [h] + hs[1..];
    }
  }

  /** Dropping the first group of a greedy packing leaves a greedy packing of the rest. */
  lemma GreedyTail(sents: seq<string>, gs: seq<seq<string>>, max: int)
    requires Greedy(sents, gs, max) && gs != []
    ensures Greedy(sents[|gs[0]|..], gs[1..], max)
  {
    assert sents == gs[0] + Flatten(gs[1..]);
    assert sents[|gs[0]|..] == Flatten(gs[1..]);
  }

  /** A packing has no group exactly when there is no sentence. */
  lemma GreedyNonEmpty(sents: seq<string>, gs: seq<seq<string>>, max: int)
    requires Greedy(sents, gs, max)
    ensures gs == [] <==> sents == []
  {
    if gs != [] {
      assert |Flatten(gs)| >= |gs[0]| > 0;
    }
  }

  lemma GreedyEmpty(sents: seq<string>, gs: seq<seq<string>>, hs: seq<seq<string>>, max: int)
    requires Greedy(sents, gs, max) && Greedy(sents, hs, max)
    requires gs == [] || hs == []
    ensures gs == hs
  {
    GreedyNonEmpty(sents, gs, max);
    GreedyNonEmpty(sents, hs, max);
  }

  /**
   * If one greedy packing closed its first group before another did, the sentence that opens its
   * second group would have fit into its first.
   */
  lemma GreedyShorterFirst(sents: seq<string>, gs: seq<seq<string>>, hs: seq<seq<string>>, max: int)
    requires Flatten(gs) == sents && forall i :: 0 <= i < |gs| ==> gs[i] != []
    requires Flatten(hs) == sents && hs != [] && Fits(hs[0], max)
    requires gs != [] && |gs[0]| < |hs[0]|
    ensures |gs| > 1 && SumLen(gs[0]) + |gs[1][0]| <= max
  {
    var g, h := gs[0], hs[0];
    var rg := Flatten(gs[1..]);
    assert sents == g + rg && sents == h + Flatten(hs[1..]);
    PrefixAgree(sents, g, rg, h, Flatten(hs[1..]));
    assert gs[1..] != [];
    assert rg[0] == gs[1][0] by {
      assert rg == gs[1..][0] + Flatten(gs[1..][1..]);
    }
    assert SumLen(g + [rg[0]]) == SumLen(g) + |rg[0]| by {
      assert (g + [rg[0]])[..|g|] == g;
    }
    SumLenPrefix(h, |g| + 1);
  }

  /** Two splittings of one sequence, the second head longer: it extends the first by one more item. */
  lemma PrefixAgree<T>(s: seq<T>, a: seq<T>, x: seq<T>, b: seq<T>, y: seq<T>)
    requires s == a + x && s == b + y && |a| < |b|
    ensures x != [] && b[..|a| + 1] == a + [x[0]]
  {
    assert s[|a|] == x[0];
    assert b[..|a| + 1] == s[..|a| + 1];
  }

  /** One entry of the result of `segment_by_sections`. */
  datatype Section = Section(text: string, length: nat, sentenceCount: nat)

  function SectionOf(g: seq<string>): Section {
    Section(Join(g, " "), SumLen(g), |g|)
  }

  function Sections(gs: seq<seq<string>>): (r: seq<Section>)
    ensures |r| == |gs|
    ensures forall i :: 0 <= i < |gs| ==> r[i] == SectionOf(gs[i])
  {
    seq(|gs|, i requires 0 <= i < |gs| => SectionOf(gs[i]))
  }

  /** The length of sentences joined by single spaces. */
  lemma {:induction false} JoinLength(g: seq<string>)
    requires g != []
    ensures |Join(g, " ")| == SumLen(g) + |g| - 1
    decreases |g|
  {
    if |g| > 1 {
      var init := g[..|g| - 1];
      assert g == init + [g[|g| - 1]];
      JoinAppend(init, g[|g| - 1], " ");
      JoinLength(init);
    }
  }

  /** Joining the groups' joined texts is joining all the sentences. */
  lemma {:induction false} JoinFlatten(gs: seq<seq<string>>)
    requires forall i :: 0 <= i < |gs| ==> gs[i] != []
    ensures Join(Flatten(gs), " ") == Join(Texts(Sections(gs)), " ")
    decreases |gs|
  {
    if gs != [] {
      var t := Texts(Sections(gs));
      assert t[1..] == Texts(Sections(gs[1..]));
      JoinFlatten(gs[1..]);
      if |gs| > 1 {
        assert Flatten(gs[1..]) != [] by { assert |Flatten(gs[1..])| >= |gs[1]|; }
        JoinConcat(gs[0], Flatten(gs[1..]), " ");
      } else {
        assert gs[1..] == [];
        assert Flatten(gs) == gs[0];
        assert t == [Join(gs[0], " ")];
      }
    }
  }

  function Texts(r: seq<Section>): (ts: seq<string>)
    ensures |ts| == |r| && forall i :: 0 <= i < |r| ==> ts[i] == r[i].text
  {
    seq(|r|, i requires 0 <= i < |r| => r[i].text)
  }

  /** The sentence counts of some sections, added up. */
  function TotalSentences(r: seq<Section>): nat
    decreases |r|
  {
    if r == [] then 0 else r[0].sentenceCount + TotalSentences(r[1..])
  }

  lemma {:induction false} TotalSentencesFlatten(gs: seq<seq<string>>)
    ensures TotalSentences(Sections(gs)) == |Flatten(gs)|
    decreases |gs|
  {
    if gs != [] {
      assert Sections(gs)[1..] == Sections(gs[1..]);
      TotalSentencesFlatten(gs[1..]);
    }
  }

  /**
   * `segment_by_sections(text, max_section_length)`: every section holds at least one sentence,
   * more than one only within the length limit, and its text is its sentences joined by spaces.
   */
  function SegmentBySections(text: string, max: int): (r: seq<Section>)
    ensures forall i :: 0 <= i < |r| ==>
      r[i].sentenceCount >= 1 && (r[i].sentenceCount >= 2 ==> r[i].length <= max)
    ensures forall i :: 0 <= i < |r| ==> |r[i].text| == r[i].length + r[i].sentenceCount - 1
  {
    var gs := Pack(SegmentBySentences(text), max);
    forall i | 0 <= i < |gs| ensures |Join(gs[i], " ")| == SumLen(gs[i]) + |gs[i]| - 1 {
      JoinLength(gs[i]);
    }
    Sections(gs)
  }

  /**
   * The sections hold all the sentences, in order and each once: their texts joined by spaces
   * are the sentences joined by spaces, and their sentence counts add up to the sentence count.
   */
  lemma SectionsCoverSentences(text: string, max: int)
    ensures var r, ss := SegmentBySections(text, max), SegmentBySentences(text);
      Join(Texts(r), " ") == Join(ss, " ") && TotalSentences(r) == |ss|
  {
    var gs := Pack(SegmentBySentences(text), max);
    JoinFlatten(gs);
    TotalSentencesFlatten(gs);
  }

  /**
   * Each section is a run of consecutive sentences: its text is the run joined by single
   * spaces, its length the run's total length and its count the run's size. The runs, in order,
   * are the sentences, and a run closes only when the next sentence would not fit.
   */
  lemma SectionsAreRuns(text: string, max: int)
    ensures var r := SegmentBySections(text, max);
      exists gs :: && Greedy(SegmentBySentences(text), gs, max) && |gs| == |r|
                   && forall i :: 0 <= i < |r| ==> r[i] == Section(Join(gs[i], " "), SumLen(gs[i]), |gs[i]|)
  {
    var gs := Pack(SegmentBySentences(text), max);
    assert Greedy(SegmentBySentences(text), gs, max);
  }

  /** The sections are the greedy packing of the sentences, the only one there is. */
  lemma SectionsAreGreedy(text: string, max: int, gs: seq<seq<string>>)
    requires Greedy(SegmentBySentences(text), gs, max)
    ensures SegmentBySections(text, max) == Sections(gs)
  {
    GreedyUnique(SegmentBySentences(text), Pack(SegmentBySentences(text), max), gs, max);
  }


  // ---------------------------------------------------------------------------------------------
  // extract_keywords / extract_key_phrases: word frequencies
  // ---------------------------------------------------------------------------------------------

  const StopWords: set<string> := {
    "a", "an", "and", "are", "as", "at", "be", "but", "by", "for", "from",
    "has", "he", "in", "is", "it", "its", "of", "on", "or", "that", "the",
    "to", "was", "will", "with"
  }

  /** A word kept for counting: alphanumeric, not a stop word, longer than two characters. */
  predicate IsKeywordToken(w: string) {
    IsAlnum(w) && w !in StopWords && |w| > 2
  }

  /** The kept words, in order. */
  function KeepTokens(ws: seq<string>): (r: seq<string>)
    ensures forall k :: 0 <= k < |r| ==> IsKeywordToken(r[k]) && r[k] in ws
    ensures forall w :: w in ws && IsKeywordToken(w) ==> w in r
    decreases |ws|
  {
    if ws == [] then []
    else
      var rest := KeepTokens(ws[1..]);
      assert forall w :: w in ws[1..] ==> w in ws;
      assert forall w :: w in ws ==> w == ws[0] || w in ws[1..];
      if IsKeywordToken(ws[0]) then [ws[0]] + rest else rest
  }

  /** The lower-cased words of `text` that are counted. */
  function Candidates(text: string): seq<string> {
    KeepTokens(Split(Lower(text)))
  }

  function Id(w: string): string { w }

  /** The distinct candidates in order of first occurrence: the keys of the `freq` dict. */
  function Vocabulary(cands: seq<string>): seq<string> {
    Dedupe(cands, Id, {})
  }

  /** `freq[w]` for each word of the vocabulary, in the vocabulary's order. */
  function Frequencies(words: seq<string>, cands: seq<string>): (f: seq<int>)
    ensures |f| == |words| && forall i :: 0 <= i < |words| ==> f[i] == Count(cands, words[i])
  {
    seq(|words|, i requires 0 <= i < |words| => Count(cands, words[i]))
  }

  /** `extract_keywords(text, top_n)` */
  function ExtractKeywords(text: string, topN: int): (r: seq<string>)
    ensures forall k :: 0 <= k < |r| ==> IsKeywordToken(r[k]) && r[k] in Split(Lower(text))
  {
    var cands := Candidates(text);
    var words := Vocabulary(cands);
    VocabularyMembers(cands);
    var top := Take(Rank(Frequencies(words, cands)), topN);
    var r := Select(words, top);
    assert forall k :: 0 <= k < |r| ==> r[k] in words;
    r
  }

  /** `extract_key_phrases(text, top_n)`: the keywords again. */
  function ExtractKeyPhrases(text: string, topN: int): (r: seq<string>)
    ensures forall k :: 0 <= k < |r| ==> IsKeywordToken(r[k]) && r[k] in Split(Lower(text))
  {
    ExtractKeywords(text, topN)
  }

  /** The vocabulary holds exactly the candidates. */
  lemma VocabularyMembers(cands: seq<string>)
    ensures forall w :: w in Vocabulary(cands) <==> w in cands
  {
    var v := Vocabulary(cands);
    DedupeKeepsFirst(cands, Id, {});
    forall w | w in cands ensures w in v {
      var i :| 0 <= i < |cands| && cands[i] == w;
      DedupeCovers(cands, Id, {}, i);
    }
  }

  /** With the identity key, the first element carrying a key is the first occurrence. */
  lemma FirstWithKeyId(xs: seq<string>, w: string)
    requires w in xs
    ensures HasKey(xs, Id, w) && FirstWithKey(xs, Id, w) == IndexOf(xs, w)
  {
    HasKeyAt(xs, Id, IndexOf(xs, w));
  }

  /** The vocabulary repeats no word and lists words by first occurrence. */
  lemma VocabularyOrder(cands: seq<string>)
    ensures Distinct(Vocabulary(cands))
    ensures forall i, j :: 0 <= i < j < |Vocabulary(cands)| ==>
      Vocabulary(cands)[i] in cands && Vocabulary(cands)[j] in cands &&
      IndexOf(cands, Vocabulary(cands)[i]) < IndexOf(cands, Vocabulary(cands)[j])
  {
    var v := Vocabulary(cands);
    VocabularyMembers(cands);
    DedupeInOrder(cands, Id, {});
    forall i, j | 0 <= i < j < |v|
      ensures IndexOf(cands, v[i]) < IndexOf(cands, v[j])
    {
      FirstWithKeyId(cands, v[i]);
      FirstWithKeyId(cands, v[j]);
    }
  }

  /**
   * Keyword `u` is listed before keyword `v`: it is more frequent, or as frequent and met first
   * (the order of a stable sort of the `freq` dict by descending count).
   */
  predicate ListedBefore(cands: seq<string>, u: string, v: string)
    requires u in cands && v in cands
  {
    Count(cands, u) > Count(cands, v) ||
    (Count(cands, u) == Count(cands, v) && IndexOf(cands, u) < IndexOf(cands, v))
  }

  /** Position `k` of the keywords, unfolded to the vocabulary and the ranking: the step the keyword lemmas share. */
  lemma KeywordAt(text: string, topN: int, k: nat)
    requires k < |ExtractKeywords(text, topN)|
    ensures var cands, words := Candidates(text), Vocabulary(Candidates(text));
      var top := Take(Rank(Frequencies(words, cands)), topN);
      k < |top| && top[k] < |words| && ExtractKeywords(text, topN)[k] == words[top[k]]
  {
  }

  /** The keywords repeat no word. */
  lemma KeywordsDistinct(text: string, topN: int)
    ensures Distinct(ExtractKeywords(text, topN))
  {
    var cands := Candidates(text);
    var words := Vocabulary(cands);
    var f := Frequencies(words, cands);
    var r := ExtractKeywords(text, topN);
    VocabularyOrder(cands);
    RankedDistinct(f, Rank(f));
    forall p, q | 0 <= p < q < |r| ensures r[p] != r[q] {
      KeywordAt(text, topN, p);
      KeywordAt(text, topN, q);
      var top := Take(Rank(f), topN);
      assert top[p] != top[q];
    }
  }

  /** The keywords come most frequent first, ties in order of first occurrence. */
  lemma KeywordsOrdered(text: string, topN: int)
    ensures var cands, r := Candidates(text), ExtractKeywords(text, topN);
      forall p, q :: 0 <= p < q < |r| ==>
        r[p] in cands && r[q] in cands && ListedBefore(cands, r[p], r[q])
  {
    var cands := Candidates(text);
    var words := Vocabulary(cands);
    var f := Frequencies(words, cands);
    var r := ExtractKeywords(text, topN);
    var top := Take(Rank(f), topN);
    forall p, q | 0 <= p < q < |r|
      ensures r[p] in cands && r[q] in cands && ListedBefore(cands, r[p], r[q])
    {
      KeywordAt(text, topN, p);
      KeywordAt(text, topN, q);
      assert Precedes(f, top[p], top[q]);
      RankedListedBefore(cands, top[p], top[q]);
    }
  }

  /** A word ranked before another by frequency is listed before it. */
  lemma RankedListedBefore(cands: seq<string>, i: nat, j: nat)
    requires i < |Vocabulary(cands)| && j < |Vocabulary(cands)|
    requires Precedes(Frequencies(Vocabulary(cands), cands), i, j)
    ensures var v := Vocabulary(cands); v[i] in cands && v[j] in cands && ListedBefore(cands, v[i], v[j])
  {
    var v := Vocabulary(cands);
    VocabularyOrder(cands);
    VocabularyMembers(cands);
    assert v[i] in v && v[j] in v;
  }

  /** A candidate left out of the keywords is listed after every keyword. */
  lemma KeywordsBeatRest(text: string, topN: int, w: string)
    requires w in Candidates(text) && w !in ExtractKeywords(text, topN)
    ensures var cands, r := Candidates(text), ExtractKeywords(text, topN);
      forall k :: 0 <= k < |r| ==> r[k] in cands && ListedBefore(cands, r[k], w)
  {
    var cands := Candidates(text);
    var words := Vocabulary(cands);
    var f := Frequencies(words, cands);
    var r := ExtractKeywords(text, topN);
    var top := Take(Rank(f), topN);
    VocabularyOrder(cands);
    VocabularyMembers(cands);
    var j := IndexOf(words, w);
    forall k | 0 <= k < |top| ensures top[k] != j {
      KeywordAt(text, topN, k);
      assert r[k] in r && r[k] != w;
    }
    assert j !in top;
    forall k | 0 <= k < |r| ensures r[k] in cands && ListedBefore(cands, r[k], w) {
      KeywordAt(text, topN, k);
      assert top[k] in top;
      TakeBeatsRest(f, topN, top[k], j);
      assert words[top[k]] in words;
      if top[k] > j {
        assert f[top[k]] > f[j];
      } else {
        assert top[k] != j;
      }
    }
  }

  /** A sequence with no repeats has as many members as elements. */
  lemma {:induction false} DistinctCard(xs: seq<string>)
    requires Distinct(xs)
    ensures |set w | w in xs| == |xs|
    decreases |xs|
  {
    if xs != [] {
      var rest := xs[1..];
      assert Distinct(rest) by {
        forall i, j | 0 <= i < j < |rest| ensures rest[i] != rest[j] {
          assert rest[i] == xs[i + 1] && rest[j] == xs[j + 1];
        }
      }
      DistinctCard(rest);
      assert (set w | w in xs) == {xs[0]} + (set w | w in rest) by {
        forall w | w in xs ensures w == xs[0] || w in rest {
          var i :| 0 <= i < |xs| && xs[i] == w;
          if i > 0 { assert rest[i - 1] == w; }
        }
      }
      forall i | 0 <= i < |rest| ensures rest[i] != xs[0] {
        assert rest[i] == xs[i + 1];
      }
      assert xs[0] !in rest;
    }
  }

  /** `top_n` keywords are returned, or all distinct candidates when there are fewer. */
  lemma KeywordsSize(text: string, topN: nat)
    ensures |ExtractKeywords(text, topN)| == Min(topN, |set w | w in Candidates(text)|)
  {
    var cands := Candidates(text);
    var words := Vocabulary(cands);
    VocabularyOrder(cands);
    VocabularyMembers(cands);
    DistinctCard(words);
    assert (set w | w in words) == (set w | w in cands);
  }

  /** Asking for fewer keywords gives a prefix of the longer list. */
  lemma KeywordsPrefix(text: string, m: nat, n: nat)
    requires m <= n
    ensures IsPrefix(ExtractKeywords(text, m), ExtractKeywords(text, n))
  {
    var a, b := ExtractKeywords(text, m), ExtractKeywords(text, n);
    forall k | 0 <= k < |a| ensures k < |b| && a[k] == b[k] {
      KeywordAt(text, m, k);
      KeywordAt(text, n, k);
    }
  }

  // ---------------------------------------------------------------------------------------------
  // _generate_simplified_notes
  // ---------------------------------------------------------------------------------------------

  /** `[xs[i:i+size] for i in range(0, len(xs), size)]` */
  function Chunks<T>(xs: seq<T>, size: nat): (cs: seq<seq<T>>)
    requires size > 0
    ensures forall i :: 0 <= i < |cs| ==> 0 < |cs[i]| <= size
    decreases |xs|
  {
    if xs == [] then [] else [Take(xs, size)] + Chunks(xs[Min(size, |xs|)..], size)
  }

  /** The chunks, put back together, are the sequence. */
  lemma {:induction false} ChunksFlatten<T>(xs: seq<T>, size: nat)
    requires size > 0
    ensures Flatten(Chunks(xs, size)) == xs
    decreases |xs|
  {
    if xs != [] {
      var rest := xs[Min(size, |xs|)..];
      ChunksFlatten(rest, size);
      assert Chunks(xs, size)[1..] == Chunks(rest, size);
      assert xs == Take(xs, size) + rest;
    }
  }

  /** Every chunk but the last is full, so there are `ceil(len(xs) / size)` of them. */
  lemma {:induction false} ChunksCount<T>(xs: seq<T>, size: nat)
    requires size > 0
    ensures forall i :: 0 <= i < |Chunks(xs, size)| - 1 ==> |Chunks(xs, size)[i]| == size
    ensures (|Chunks(xs, size)| - 1) * size < |xs| <= |Chunks(xs, size)| * size
            || (xs == [] && Chunks(xs, size) == [])
    decreases |xs|
  {
    if xs != [] {
      var rest := xs[Min(size, |xs|)..];
      var cr := Chunks(rest, size);
      ChunksCount(rest, size);
      assert Chunks(xs, size) == [Take(xs, size)] + cr;
      if |xs| <= size {
        assert rest == [];
      } else {
        CountStep(|cr|, size, |rest|, |xs|);
      }
      FullStep(Take(xs, size), cr, size, Chunks(xs, size));
    }
  }

  /** One more full chunk in front keeps all but the last chunk full. */
  lemma FullStep<T>(c: seq<T>, cr: seq<seq<T>>, size: nat, cs: seq<seq<T>>)
    requires cs == [c] + cr && (cr != [] ==> |c| == size)
    requires forall i :: 0 <= i < |cr| - 1 ==> |cr[i]| == size
    ensures forall i :: 0 <= i < |cs| - 1 ==> |cs[i]| == size
  {
    forall i | 0 <= i < |cs| - 1 ensures |cs[i]| == size {
      if i > 0 {
        assert cs[i] == cr[i - 1];
      }
    }
  }

  /** One more chunk of `size` items: the ceiling bounds move up by one chunk. */
  lemma CountStep(m: int, size: nat, restLen: int, len: int)
    requires len == restLen + size && (m - 1) * size < restLen <= m * size
    ensures (m + 1 - 1) * size < len <= (m + 1) * size
  {
  }

  /** `max(2, len(sentences) // 5)`: the chunk size aiming at about five chunks. */
  function ChunkSize(n: nat): (size: nat)
    ensures size >= 2
  {
    Max(2, n / 5)
  }

  /** However many sentences there are, they fall into at most seven chunks. */
  lemma ChunkCountBound<T>(xs: seq<T>)
    ensures |Chunks(xs, ChunkSize(|xs|))| <= 7
  {
    ChunksCount(xs, ChunkSize(|xs|));
    SevenChunksSuffice(|xs|);
    FewerThanEight(|Chunks(xs, ChunkSize(|xs|))|, ChunkSize(|xs|), |xs|);
  }

  lemma SevenChunksSuffice(n: nat)
    ensures n <= 7 * ChunkSize(n)
  {
    var q := n / 5;
    assert n < 5 * q + 5;
  }

  lemma FewerThanEight(c: nat, size: nat, n: nat)
    requires size > 0 && n <= 7 * size
    requires (c - 1) * size < n || c == 0
    ensures c <= 7
  {
    MulMonotone(c - 1, 7, size);
  }

  lemma MulMonotone(a: int, b: int, k: nat)
    ensures a >= b ==> a * k >= b * k
  {
    assert a * k == b * k + (a - b) * k;
  }

  /** The bullet as spelled in the source: the bytes of U+2022 read back as Windows-1252. */
  const Bullet: string := "\U{E2}\U{20AC}\U{A2}"

  const NotesHeader: string := "## Key Topics and Explanations\n"

  /** The title of a chunk: its first five words, title-cased. */
  function ChunkTitle(combined: string): string {
    Title(Join(Take(Split(combined), 5), " "))
  }

  /** The three lines written for a chunk: its title, its first 200 characters, a blank line. */
  function ChunkBlock(combined: string): (block: seq<string>)
    ensures |block| == 3
  {
    ["\n### " + ChunkTitle(combined) + "...", Bullet + " " + Take(combined, 200) + "...", ""]
  }

  /** The lines written for each chunk whose joined text is not blank. */
  function ChunkLines(cs: seq<seq<string>>): (lines: seq<string>)
    ensures |lines| <= 3 * |cs|
    decreases |cs|
  {
    if cs == [] then []
    else
      var combined := Join(cs[0], " ");
      (if Strip(combined) != [] then ChunkBlock(combined) else []) + ChunkLines(cs[1..])
  }

  /** The lines that `_generate_simplified_notes` joins. */
  function NoteLines(text: string): seq<string> {
    var ss := SegmentBySentences(text);
    if |ss| > 0 then [NotesHeader] + ChunkLines(Chunks(ss, ChunkSize(|ss|))) else []
  }

  /**
   * `_generate_simplified_notes(text, sections)`; the sections are not consulted. The notes are
   * empty exactly when the text has no sentence.
   */
  function SimplifiedNotes(text: string): (r: string)
    ensures r == [] <==> SegmentBySentences(text) == []
  {
    var lines := NoteLines(text);
    assert |lines| > 1 ==> Join(lines, "\n") == NotesHeader + "\n" + Join(lines[1..], "\n");
    Join(lines, "\n")
  }

  /** Sentences as `segment_by_sentences` produces them: non-empty and stripped. */
  predicate AllSentences(c: seq<string>) {
    forall k :: 0 <= k < |c| ==> c[k] != [] && Stripped(c[k])
  }

  /** Joining non-blank sentences gives a non-blank text. */
  lemma JoinNotBlank(c: seq<string>)
    requires c != [] && AllSentences(c)
    ensures Strip(Join(c, " ")) != []
  {
    var j := Join(c, " ");
    if |c| > 1 {
      assert j == c[0] + " " + Join(c[1..], " ");
    }
    assert j[0] == c[0][0] && !IsSpace(j[0]);
  }

  /** The blocks of lines of the given chunks. */
  function Blocks(cs: seq<seq<string>>): (bs: seq<seq<string>>)
    ensures |bs| == |cs| && forall i :: 0 <= i < |cs| ==> bs[i] == ChunkBlock(Join(cs[i], " "))
  {
    seq(|cs|, i requires 0 <= i < |cs| => ChunkBlock(Join(cs[i], " ")))
  }

  /** Every chunk of sentences contributes its block of three lines; none is skipped as blank. */
  lemma {:induction false} ChunkLinesShape(cs: seq<seq<string>>)
    requires forall i :: 0 <= i < |cs| ==> cs[i] != [] && AllSentences(cs[i])
    ensures ChunkLines(cs) == Flatten(Blocks(cs))
    decreases |cs|
  {
    if cs != [] {
      var rest := cs[1..];
      assert forall i :: 0 <= i < |rest| ==> rest[i] == cs[i + 1];
      ChunkLinesShape(rest);
      JoinNotBlank(cs[0]);
      assert ChunkLines(cs) == ChunkBlock(Join(cs[0], " ")) + ChunkLines(rest);
      BlocksCons(cs);
    }
  }

  lemma BlocksCons(cs: seq<seq<string>>)
    requires cs != []
    ensures Flatten(Blocks(cs)) == ChunkBlock(Join(cs[0], " ")) + Flatten(Blocks(cs[1..]))
  {
    assert Blocks(cs)[1..] == Blocks(cs[1..]);
  }

  /** Blocks of three lines each make three lines per block. */
  lemma {:induction false} BlocksLength(cs: seq<seq<string>>)
    ensures |Flatten(Blocks(cs))| == 3 * |cs|
    decreases |cs|
  {
    if cs != [] {
      BlocksLength(cs[1..]);
      assert Blocks(cs)[1..] == Blocks(cs[1..]);
    }
  }

  /**
   * A text with sentences gives the header and then one block of three lines per chunk of
   * sentences, the chunks being the sentences in order and at most seven of them.
   */
  lemma NotesShape(text: string)
    requires SegmentBySentences(text) != []
    ensures var ss := SegmentBySentences(text);
      var cs := Chunks(ss, ChunkSize(|ss|));
      Flatten(cs) == ss && |cs| <= 7 &&
      NoteLines(text) == [NotesHeader] + Flatten(Blocks(cs)) &&
      |NoteLines(text)| == 1 + 3 * |cs|
  {
    var ss := SegmentBySentences(text);
    var size := ChunkSize(|ss|);
    var cs := Chunks(ss, size);
    ChunksFlatten(ss, size);
    ChunkCountBound(ss);
    forall i | 0 <= i < |cs| ensures AllSentences(cs[i]) {
      ChunkMembers(ss, size, i);
    }
    ChunkLinesShape(cs);
    BlocksLength(cs);
  }

  /** Every element of a chunk is an element of the chunked sequence. */
  lemma {:induction false} ChunkMembers(xs: seq<string>, size: nat, i: nat)
    requires size > 0 && i < |Chunks(xs, size)|
    ensures forall k :: 0 <= k < |Chunks(xs, size)[i]| ==> Chunks(xs, size)[i][k] in xs
    decreases |xs|
  {
    var rest := xs[Min(size, |xs|)..];
    if i > 0 {
      ChunkMembers(rest, size, i - 1);
      assert Chunks(xs, size)[i] == Chunks(rest, size)[i - 1];
      assert forall x :: x in rest ==> x in xs;
    } else {
      assert forall k :: 0 <= k < |Take(xs, size)| ==> Take(xs, size)[k] == xs[k];
    }
  }

  // ---------------------------------------------------------------------------------------------
  // process_transcript
  // ---------------------------------------------------------------------------------------------

  const MaxSectionLength: int := 500
  const KeyPhraseCount: int := 10
  const KeywordCount: int := 15

  /** The dictionary `process_transcript` returns. */
  datatype ProcessedTranscript = ProcessedTranscript(
    originalText: string,
    cleanedText: string,
    simplifiedNotes: string,
    sections: seq<Section>,
    sectionCount: nat,
    keyPhrases: seq<string>,
    keywords: seq<string>,
    wordCount: nat,
    sentenceCount: nat)

  /**
   * `process_transcript(text)`: the counts agree with the parts they count, the sections hold
   * every sentence, the key phrases are the head of the keyword list, and the notes are empty
   * exactly when there is no sentence.
   */
  function ProcessTranscript(text: string): (r: ProcessedTranscript)
    ensures r.originalText == text && r.cleanedText == CleanText(text)
    ensures Normalized(r.cleanedText) && |r.cleanedText| <= |text|
    ensures r.sections == SegmentBySections(r.cleanedText, MaxSectionLength)
    ensures r.keyPhrases == ExtractKeyPhrases(r.cleanedText, KeyPhraseCount)
    ensures r.keywords == ExtractKeywords(r.cleanedText, KeywordCount)
    ensures r.simplifiedNotes == SimplifiedNotes(r.cleanedText)
    ensures r.wordCount == |Split(r.cleanedText)|
    ensures r.sentenceCount == |SegmentBySentences(r.cleanedText)|
    ensures r.sectionCount == |r.sections| && TotalSentences(r.sections) == r.sentenceCount
    ensures IsPrefix(r.keyPhrases, r.keywords)
    ensures |r.keyPhrases| <= KeyPhraseCount && |r.keywords| <= KeywordCount
    ensures r.wordCount == 0 <==> r.cleanedText == []
    ensures r.simplifiedNotes == [] <==> r.sentenceCount == 0
  {
    var cleaned := CleanText(text);
    var sections := SegmentBySections(cleaned, MaxSectionLength);
    var keyPhrases := ExtractKeyPhrases(cleaned, KeyPhraseCount);
    var keywords := ExtractKeywords(cleaned, KeywordCount);
    SectionsCoverSentences(cleaned, MaxSectionLength);
    KeywordsPrefix(cleaned, KeyPhraseCount, KeywordCount);
    NormalizedWords(cleaned);
    ProcessedTranscript(
      text, cleaned, SimplifiedNotes(cleaned), sections, |sections|, keyPhrases, keywords,
      |Split(cleaned)|, |SegmentBySentences(cleaned)|)
  }

  /** A normalised text is empty exactly when it has no word. */
  lemma NormalizedWords(t: string)
    requires Normalized(t)
    ensures Split(t) == [] <==> t == []
  {
    NormalizedIsJoinedWords(t);
    JoinWordsStripped(Split(t));
  }

  // ---------------------------------------------------------------------------------------------
  // combine_segments
  // ---------------------------------------------------------------------------------------------

  /** The `text` of each segment, `""` where a segment has none. */
  function SegmentTexts(segs: seq<Option<string>>): (ts: seq<string>)
    ensures |ts| == |segs|
    ensures forall i :: 0 <= i < |segs| ==> ts[i] == segs[i].GetOr("")
  {
    seq(|segs|, i requires 0 <= i < |segs| => segs[i].GetOr(""))
  }

  /**
   * `combine_segments(segments)`: the segments' texts joined by single spaces. Every segment,
   * even one without text, is followed by a space unless it is the last.
   */
  function CombineSegments(segs: seq<Option<string>>): (r: string)
    ensures segs == [] ==> r == []
    ensures segs != [] ==> |r| == SumLen(SegmentTexts(segs)) + |segs| - 1
  {
    var ts := SegmentTexts(segs);
    if ts != [] then JoinLength(ts); Join(ts, " ") else Join(ts, " ")
  }

  /** The combined transcript has exactly the words of the segments, in order. */
  lemma CombineSegmentsWords(segs: seq<Option<string>>)
    ensures Split(CombineSegments(segs)) == Flatten(SplitEach(SegmentTexts(segs)))
  {
    SplitJoinSpace(SegmentTexts(segs));
  }
}
