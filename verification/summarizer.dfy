/**
 * `Summarizer` (backend/modules/summarizer.py): the sentence split it uses, the merge of chosen
 * sentences into a paragraph, `summarize` and `summarize_sections`. Scores come from `Scoring`,
 * the compression of a sentence from `Compression`, the bullet points from `Bullets`.
 */
module Summarizer {
  import opened Strings
  import opened Seqs
  import opened Ranking
  import opened Scoring
  import opened Compression
  import opened Cleaning

  // ---------------------------------------------------------------------------------------------
  // Sentences: `[s.strip() for s in re.split(r'(?<=[.!?])\s+', text) if s.strip()]`
  // ---------------------------------------------------------------------------------------------

  /** A break at `k`: a whitespace character right after a terminator. */
  predicate BreakAt(t: string, k: nat)
    requires 1 <= k < |t|
  {
    IsTerminal(t[k - 1]) && IsSpace(t[k])
  }

  /** `t` holds no break. */
  predicate NoBreak(t: string) {
    forall k :: 1 <= k < |t| ==> !BreakAt(t, k)
  }

  /** A sentence as the split yields it: non-empty, stripped, holding no break. */
  predicate IsSentence(s: string) {
    s != [] && Stripped(s) && NoBreak(s)
  }

  predicate EndsWithTerminal(s: string) {
    s != [] && IsTerminal(s[|s| - 1])
  }

  /** The first break at or after `i`, or `|t|` when there is none. */
  function FindBreak(t: string, i: nat): (b: nat)
    requires 1 <= i <= |t|
    ensures i <= b <= |t|
    ensures b < |t| ==> BreakAt(t, b)
    ensures forall k :: i <= k < b ==> !BreakAt(t, k)
    decreases |t| - i
  {
    if i == |t| || BreakAt(t, i) then i else FindBreak(t, i + 1)
  }

  /**
   * The stripped, non-empty pieces of `t[st..]`. The split consumes the whole run of whitespace
   * after a terminator, so the next piece starts at a non-space character and never at a break.
   */
  function SentencesFrom(t: string, st: nat): (r: seq<string>)
    requires st <= |t|
    requires st == 0 || IsSpace(t[st - 1])
    ensures forall k :: 0 <= k < |r| ==> IsSentence(r[k])
    decreases |t| - st
  {
    if st == |t| then []
    else
      var b := FindBreak(t, st + 1);
      var p := Strip(t[st..b]);
      PieceSentence(t, st, b);
      var rest := if b < |t| then SentencesFrom(t, SpaceEnd(t, b)) else [];
      ConsSentences(p, rest);
      (if p == [] then [] else [p]) + rest
  }

  /** A piece between breaks, stripped, is a sentence unless it is empty. */
  lemma PieceSentence(t: string, st: nat, b: nat)
    requires st < b <= |t|
    requires st == 0 || IsSpace(t[st - 1])
    requires forall k :: st + 1 <= k < b ==> !BreakAt(t, k)
    ensures Strip(t[st..b]) != [] ==> IsSentence(Strip(t[st..b]))
  {
    PieceNoBreak(t, st, b);
    StripNoBreak(t[st..b]);
  }

  lemma ConsSentences(p: string, rest: seq<string>)
    requires p != [] ==> IsSentence(p)
    requires forall k :: 0 <= k < |rest| ==> IsSentence(rest[k])
    ensures var r := (if p == [] then [] else [p]) + rest; forall k :: 0 <= k < |r| ==> IsSentence(r[k])
  {
    var r := (if p == [] then [] else [p]) + rest;
    if p != [] {
      forall k | 1 <= k < |r| ensures r[k] == rest[k - 1] {
      }
    } else {
      assert r == rest;
    }
  }

  /** The sentences of `text` as the summarizer splits them. */
  function SummarySentences(text: string): (r: seq<string>)
    ensures forall k :: 0 <= k < |r| ==> IsSentence(r[k])
    ensures AllButLastTerminal(r)
  {
    SentencesEndWithTerminal(text, 0);
    SentencesFrom(text, 0)
  }

  /** Every sentence but the last ends with the terminator that closed it. */
  lemma {:induction false} SentencesEndWithTerminal(t: string, st: nat)
    requires st <= |t|
    requires st == 0 || IsSpace(t[st - 1])
    ensures AllButLastTerminal(SentencesFrom(t, st))
    decreases |t| - st
  {
    if st < |t| {
      var b := FindBreak(t, st + 1);
      var p := Strip(t[st..b]);
      if b < |t| {
        var rest := SentencesFrom(t, SpaceEnd(t, b));
        SentencesEndWithTerminal(t, SpaceEnd(t, b));
        BreakPieceEnds(t, st, b);
        var r := [p] + rest;
        assert SentencesFrom(t, st) == r;
        ConsEndsWithTerminal(p, rest);
      }
    }
  }

  /** The split loses no word and joins none: its sentences hold the words of the text, in order. */
  lemma SentenceWords(text: string)
    ensures Flatten(SplitEach(SummarySentences(text))) == Split(text)
  {
    SentencesFromWords(text, 0);
    assert text[0..] == text;
  }

  lemma {:induction false} SentencesFromWords(t: string, st: nat)
    requires st <= |t|
    requires st == 0 || IsSpace(t[st - 1])
    ensures Flatten(SplitEach(SentencesFrom(t, st))) == Split(t[st..])
    decreases |t| - st
  {
    if st < |t| {
      var b := FindBreak(t, st + 1);
      var p := Strip(t[st..b]);
      var rest := if b < |t| then SentencesFrom(t, SpaceEnd(t, b)) else [];
      assert Flatten(SplitEach(SentencesFrom(t, st))) == Split(p) + Flatten(SplitEach(rest)) by {
        SentencesFromStep(t, st);
        FlattenWordsCons(p, rest);
      }
      assert Split(p) == Split(t[st..b]) by {
        SplitStripped(t[st..b]);
      }
      if b < |t| {
        var j := SpaceEnd(t, b);
        assert Flatten(SplitEach(rest)) == Split(t[j..]) by {
          SentencesFromWords(t, j);
        }
        assert Split(t[st..]) == Split(t[st..b]) + Split(t[j..]) by {
          BreakWords(t, st, b);
        }
        WordsChain(Flatten(SplitEach(SentencesFrom(t, st))), Split(p), Flatten(SplitEach(rest)),
          Split(t[st..]), Split(t[st..b]), Split(t[j..]));
      } else {
        assert b == |t|;
        assert Flatten(SplitEach(rest)) == [] by {
          assert SplitEach(rest) == [];
        }
        SliceToEnd(t, st, b);
        WordsChain(Flatten(SplitEach(SentencesFrom(t, st))), Split(p), Flatten(SplitEach(rest)),
          Split(t[st..]), Split(t[st..b]), []);
      }
    }
  }

  lemma SliceToEnd<T>(t: seq<T>, st: nat, b: nat)
    requires st <= b == |t|
    ensures t[st..] == t[st..b]
  {
  }

  lemma WordsChain(all: seq<string>, first: seq<string>, rest: seq<string>, whole: seq<string>,
                   head: seq<string>, tail: seq<string>)
    requires all == first + rest && first == head && rest == tail && whole == head + tail
    ensures all == whole
  {
  }

  /** One step of the split: the first piece, if not empty, then the sentences after the break. */
  lemma SentencesFromStep(t: string, st: nat)
    requires st < |t|
    requires st == 0 || IsSpace(t[st - 1])
    ensures var b := FindBreak(t, st + 1); var p := Strip(t[st..b]);
      SentencesFrom(t, st) ==
        (if p == [] then [] else [p]) + (if b < |t| then SentencesFrom(t, SpaceEnd(t, b)) else [])
  {
  }

  /** Cutting at a break and dropping the whitespace run there keeps the words. */
  lemma BreakWords(t: string, st: nat, b: nat)
    requires st < b < |t| && IsSpace(t[b])
    ensures Split(t[st..]) == Split(t[st..b]) + Split(t[SpaceEnd(t, b)..])
  {
    var j := SpaceEnd(t, b);
    assert AllSpace(t[b..j]);
    SplitGap(t, st, b, j);
  }

  lemma SkipSpaces(s: string, i: nat)
    requires i <= |s| && AllSpace(s[..i])
    ensures Split(s) == Split(s[i..])
  {
    assert s == s[..i] + s[i..];
    SplitAllSpace(s[..i]);
    SplitConcat(s[..i], s[i..]);
  }

  /** The words of a piece kept or dropped by the split, followed by the words of the rest. */
  lemma FlattenWordsCons(p: string, rest: seq<string>)
    ensures Flatten(SplitEach((if p == [] then [] else [p]) + rest)) == Split(p) + Flatten(SplitEach(rest))
  {
    if p == [] {
      assert Split(p) == [];
      assert (if p == [] then [] else [p]) + rest == rest;
    } else {
      var ws := SplitEach([p] + rest);
      assert ws[0] == Split(p);
      assert ws[1..] == SplitEach(rest);
    }
  }

  lemma BreakPieceEnds(t: string, st: nat, b: nat)
    requires st < b < |t| && BreakAt(t, b)
    ensures EndsWithTerminal(Strip(t[st..b]))
  {
    var piece := t[st..b];
    assert piece[|piece| - 1] == t[b - 1];
    PieceEndsWithTerminal(piece);
  }

  predicate AllButLastTerminal(r: seq<string>) {
    forall k :: 0 <= k < |r| - 1 ==> EndsWithTerminal(r[k])
  }

  lemma ConsEndsWithTerminal(p: string, rest: seq<string>)
    requires EndsWithTerminal(p)
    requires AllButLastTerminal(rest)
    ensures AllButLastTerminal([p] + rest)
  {
    var r := [p] + rest;
    forall k | 0 <= k < |r| - 1 ensures EndsWithTerminal(r[k]) {
      if k > 0 {
        assert r[k] == rest[k - 1];
      }
    }
  }

  lemma PieceNoBreak(t: string, st: nat, b: nat)
    requires st < b <= |t|
    requires st == 0 || IsSpace(t[st - 1])
    requires forall k :: st + 1 <= k < b ==> !BreakAt(t, k)
    ensures NoBreak(t[st..b])
  {
    var piece := t[st..b];
    forall k | 1 <= k < |piece| ensures !BreakAt(piece, k) {
      assert piece[k - 1] == t[st + k - 1] && piece[k] == t[st + k];
      assert !BreakAt(t, st + k);
    }
  }

  /** Stripping keeps a piece free of breaks. */
  lemma StripNoBreak(s: string)
    requires NoBreak(s)
    ensures NoBreak(Strip(s))
  {
    var r := Strip(s);
    NoBreakSlice(s, LeadingSpaces(s), r);
  }

  /** A run of consecutive characters of a text without breaks has none either. */
  lemma NoBreakSlice(s: string, i: nat, r: string)
    requires NoBreak(s) && i + |r| <= |s| && r == s[i..i + |r|]
    ensures NoBreak(r)
  {
    forall k | 1 <= k < |r| ensures !BreakAt(r, k) {
      assert r[k - 1] == s[i + k - 1] && r[k] == s[i + k];
      assert !BreakAt(s, i + k);
    }
  }

  /** A piece that ends just before a break keeps its terminator after stripping. */
  lemma PieceEndsWithTerminal(piece: string)
    ensures piece != [] && IsTerminal(piece[|piece| - 1]) ==>
      Strip(piece) != [] && IsTerminal(Strip(piece)[|Strip(piece)| - 1])
  {
    if piece != [] && IsTerminal(piece[|piece| - 1]) {
      assert !IsSpace(piece[|piece| - 1]);
      StripKeepsLast(piece);
    }
  }

  // ---------------------------------------------------------------------------------------------
  // Merging chosen sentences into a paragraph: `_merge_summary_sentences`
  // ---------------------------------------------------------------------------------------------

  /** `' '.join(s.lower().split()[:5])`: sentences with the same key count as near-duplicates. */
  function PrefixKey(s: string): string {
    Join(Take(Split(Lower(s)), 5), " ")
  }

  /** The compressions of `ss` that are not empty, in order. */
  function CompressedParts(ss: seq<string>): seq<string>
    decreases |ss|
  {
    if ss == [] then []
    else
      var c := CompressSentence(ss[0]);
      (if c == [] then [] else [c]) + CompressedParts(ss[1..])
  }

  /** Parts fit to be joined: none empty, none with surrounding whitespace. */
  predicate Parts(r: seq<string>) {
    forall k :: 0 <= k < |r| ==> r[k] != [] && Stripped(r[k])
  }

  lemma {:induction false} CompressedPartsAreParts(ss: seq<string>)
    ensures Parts(CompressedParts(ss))
    decreases |ss|
  {
    if ss != [] {
      CompressedPartsAreParts(ss[1..]);
      var c := CompressSentence(ss[0]);
      var rest := CompressedParts(ss[1..]);
      assert CompressedParts(ss) == (if c == [] then [] else [c]) + rest;
      ConsParts(c, rest);
    }
  }

  lemma ConsWords(c: string, rest: seq<string>)
    ensures TotalWords((if c == [] then [] else [c]) + rest) == |Split(c)| + TotalWords(rest)
  {
    if c == [] {
      assert ([] + rest) == rest;
    } else {
      assert ([c] + rest)[1..] == rest;
    }
  }

  lemma ConsParts(c: string, rest: seq<string>)
    requires Stripped(c) && Parts(rest)
    ensures Parts((if c == [] then [] else [c]) + rest)
  {
    var r := (if c == [] then [] else [c]) + rest;
    forall k | 0 <= k < |r| ensures r[k] != [] && Stripped(r[k]) {
      if c != [] && k > 0 {
        assert r[k] == rest[k - 1];
      }
      if c == [] {
        assert r[k] == rest[k];
      }
    }
  }

  /** Compression never adds words. */
  lemma {:induction false} CompressedPartsWords(ss: seq<string>)
    ensures TotalWords(CompressedParts(ss)) <= TotalWords(ss)
    decreases |ss|
  {
    if ss != [] {
      var c := CompressSentence(ss[0]);
      var rest := CompressedParts(ss[1..]);
      CompressedPartsWords(ss[1..]);
      assert CompressedParts(ss) == (if c == [] then [] else [c]) + rest;
      ConsWords(c, rest);
    }
  }

  /** `if summary and not summary.endswith('.'): summary += '.'` */
  function EndWithPeriod(s: string): (r: string)
    ensures r == [] <==> s == []
    ensures r == [] || r[|r| - 1] == '.'
    ensures IsPrefix(s, r) && |r| <= |s| + 1
  {
    if s != [] && s[|s| - 1] != '.' then s + "." else s
  }

  /** The first sentence of each near-duplicate group, compressed, joined by ". ", closed by a period. */
  function MergeSummary(ss: seq<string>): (r: string)
    ensures r == [] || r[|r| - 1] == '.'
  {
    if ss == [] then "" else EndWithPeriod(Join(CompressedParts(Dedupe(ss, PrefixKey, {})), ". "))
  }

  /** The number of words of all of `ss` together. */
  function TotalWords(ss: seq<string>): nat
    decreases |ss|
  {
    if ss == [] then 0 else |Split(ss[0])| + TotalWords(ss[1..])
  }

  /** Merging never adds words: the paragraph has at most the words of the merged sentences. */
  lemma MergeWords(ss: seq<string>)
    ensures |Split(MergeSummary(ss))| <= TotalWords(ss)
  {
    if ss != [] {
      var unique := Dedupe(ss, PrefixKey, {});
      DedupeWords(ss, {});
      MergeUniqueWords(unique, TotalWords(ss));
    }
  }

  /** Compressing, joining and closing the kept sentences never adds words. */
  lemma MergeUniqueWords(unique: seq<string>, bound: nat)
    requires TotalWords(unique) <= bound
    ensures |Split(EndWithPeriod(Join(CompressedParts(unique), ". ")))| <= bound
  {
    var parts := CompressedParts(unique);
    CompressedPartsWords(unique);
    CompressedPartsAreParts(unique);
    JoinPartsWords(parts);
    PeriodWords(Join(parts, ". "));
  }

  lemma PeriodWords(s: string)
    requires s == [] || !IsSpace(s[|s| - 1])
    ensures |Split(EndWithPeriod(s))| == |Split(s)|
  {
    if s != [] && s[|s| - 1] != '.' {
      AppendCharWords(s, '.');
    }
  }

  /** Near-duplicate removal keeps a subsequence, so it never adds words. */
  lemma {:induction false} DedupeWords(ss: seq<string>, seen: set<string>)
    ensures TotalWords(Dedupe(ss, PrefixKey, seen)) <= TotalWords(ss)
    decreases |ss|
  {
    if ss != [] {
      var k := PrefixKey(ss[0]);
      if k in seen {
        DedupeWords(ss[1..], seen);
      } else {
        DedupeWords(ss[1..], seen + {k});
        var r := Dedupe(ss, PrefixKey, seen);
        assert r[1..] == Dedupe(ss[1..], PrefixKey, seen + {k});
      }
    }
  }

  /** Joining stripped non-empty parts with ". " keeps their words and ends with a non-space. */
  lemma {:induction false} JoinPartsWords(parts: seq<string>)
    requires Parts(parts)
    ensures |Split(Join(parts, ". "))| == TotalWords(parts)
    ensures Join(parts, ". ") == [] || !IsSpace(Join(parts, ". ")[|Join(parts, ". ")| - 1])
    decreases |parts|
  {
    if |parts| == 1 {
      assert TotalWords(parts[1..]) == 0;
    } else if |parts| > 1 {
      var p := parts[0];
      var rest := Join(parts[1..], ". ");
      JoinPartsWords(parts[1..]);
      assert Join(parts, ". ") == (p + ".") + (" " + rest);
      SplitConcat(p + ".", " " + rest);
      AppendCharWords(p, '.');
      SkipSpaces(" " + rest, 1);
      assert (" " + rest)[1..] == rest;
    }
  }

  /** A sentence whose key was already met does not change the merged paragraph. */
  lemma MergeIgnoresRepeat(ss: seq<string>, t: string)
    requires HasKey(ss, PrefixKey, PrefixKey(t))
    ensures MergeSummary(ss + [t]) == MergeSummary(ss)
  {
    DedupeIgnoresRepeat(ss, t, PrefixKey, {});
  }

  // ---------------------------------------------------------------------------------------------
  // Word totals
  // ---------------------------------------------------------------------------------------------

  /** The words of all the sentences are the words of their concatenation, counted. */
  lemma {:induction false} TotalWordsFlatten(ss: seq<string>)
    ensures TotalWords(ss) == |Flatten(SplitEach(ss))|
    decreases |ss|
  {
    if ss != [] {
      TotalWordsFlatten(ss[1..]);
      assert SplitEach(ss)[1..] == SplitEach(ss[1..]);
    }
  }

  /** Keeping some of the sentences, in their order, never adds words. */
  lemma {:induction false} SelectWords(xs: seq<string>, idx: seq<nat>)
    requires StrictlyIncreasing(idx)
    requires forall k :: 0 <= k < |idx| ==> idx[k] < |xs|
    ensures TotalWords(Select(xs, idx)) <= TotalWords(xs)
    decreases |xs|
  {
    if idx == [] {
      assert Select(xs, idx) == [];
    } else if idx[0] == 0 {
      var idx' := seq(|idx| - 1, k requires 0 <= k < |idx| - 1 => idx[k + 1] - 1);
      SelectWords(xs[1..], idx');
      assert Select(xs, idx) == [xs[0]] + Select(xs[1..], idx');
      assert Select(xs, idx)[1..] == Select(xs[1..], idx');
    } else {
      var idx' := seq(|idx|, k requires 0 <= k < |idx| => idx[k] - 1);
      SelectWords(xs[1..], idx');
      assert Select(xs, idx) == Select(xs[1..], idx');
    }
  }

  /** The first sentences have at most the words of all of them. */
  lemma {:induction false} PrefixWords(xs: seq<string>, m: nat)
    requires m <= |xs|
    ensures TotalWords(xs[..m]) <= TotalWords(xs)
    decreases |xs|
  {
    if m > 0 {
      PrefixWords(xs[1..], m - 1);
      assert xs[..m][1..] == xs[1..][..m - 1];
    }
  }

  // ---------------------------------------------------------------------------------------------
  // summarize
  // ---------------------------------------------------------------------------------------------

  const SummaryStopWords: set<string> := {
    "a", "an", "the", "is", "are", "was", "were", "be", "been",
    "and", "or", "but", "in", "on", "at", "to", "for", "of", "with",
    "by", "it", "its", "this", "that", "as", "from", "has", "have",
    "had", "not", "will", "would", "can", "could", "we", "they", "you",
    "he", "she", "i", "my", "your", "our", "their", "so", "if"
  }

  /** A word counted in a frequency table: alphabetic, longer than `minLen`, not a stop word. */
  predicate TableWord(w: string, stop: set<string>, minLen: nat) {
    IsAlpha(w) && |w| > minLen && Lower(w) !in stop
  }

  /** `[w.lower() for w in words if <TableWord>]`: the entries of the frequency table. */
  function TableWords(ws: seq<string>, stop: set<string>, minLen: nat): (r: seq<string>)
    ensures |r| <= |ws|
    ensures forall v :: v in ws && TableWord(v, stop, minLen) ==> Lower(v) in r
    ensures forall k :: 0 <= k < |r| ==> r[k] !in stop && |r[k]| > minLen && IsAlpha(r[k])
    decreases |ws|
  {
    if ws == [] then []
    else
      var rest := TableWords(ws[1..], stop, minLen);
      assert forall v :: v in ws ==> v == ws[0] || v in ws[1..];
      if TableWord(ws[0], stop, minLen) then
        LowerAlpha(ws[0]);
        [Lower(ws[0])] + rest
      else rest
  }

  lemma LowerAlpha(w: string)
    requires IsAlpha(w)
    ensures IsAlpha(Lower(w))
  {
  }

  /** The score of every sentence, in half-points, by position. */
  function SentenceScores(ss: seq<string>, table: seq<string>): (r: seq<int>)
    ensures |r| == |ss|
  {
    seq(|ss|, i requires 0 <= i < |ss| => Score(ss[i], table, i, |ss|))
  }

  /** `max(2, min(5, n * 2 // 5))`: the number of sentences kept. */
  function PickCount(n: nat): nat {
    Max(2, Min(5, n * 2 / 5))
  }

  /** The best `k` sentences by score, back in text order. */
  function Best(ss: seq<string>, scores: seq<int>, k: nat): (r: seq<string>)
    requires |scores| == |ss|
  {
    var idx := TopInOrder(scores, k);
    TopInBounds(scores, k);
    Select(ss, idx)
  }

  lemma TopInBounds(scores: seq<int>, k: nat)
    ensures forall j :: 0 <= j < |TopInOrder(scores, k)| ==> TopInOrder(scores, k)[j] < |scores|
  {
    var idx := TopInOrder(scores, k);
    forall j | 0 <= j < |idx| ensures idx[j] < |scores| {
      assert idx[j] in idx;
      assert idx[j] in Take(Rank(scores), k);
    }
  }

  /** `summarize(text)` when the text is short: its compression, or the text when that is empty. */
  function ShortSummary(text: string): (r: string)
    ensures r == [] <==> text == []
    ensures |r| <= |text| && |Split(r)| <= |Split(text)|
  {
    var c := CompressSentence(text);
    if c != [] then c else text
  }

  /** `summarize(text)` for a text of `ws` words split into at least two sentences `ss`. */
  function LongSummary(ss: seq<string>, ws: seq<string>): string
    requires |ss| >= 2
  {
    var scores := SentenceScores(ss, TableWords(ws, SummaryStopWords, 2));
    Settle(MergeSummary(Best(ss, scores, PickCount(|ss|))), MergeSummary(Take(ss, 3)),
           MergeSummary(Best(ss, scores, 2)), |ws|, |ss|)
  }

  /**
   * The last steps of `summarize`: the merge of the first three sentences when the merge of the
   * chosen ones is empty, then the merge of the two best when the result still has more than
   * 80% of the `wc` words of the text and there are more than two sentences.
   */
  function Settle(first: string, fallback: string, trimmed: string, wc: nat, n: nat): (r: string)
    ensures r == first || r == fallback || r == trimmed
  {
    var summary := if first == [] then fallback else first;
    if 5 * |Split(summary)| > 4 * wc && n > 2 then trimmed else summary
  }

  /** The summary is short when the text has fewer than 30 words or a single sentence. */
  predicate IsShortText(text: string) {
    |Split(text)| < 30 || |SummarySentences(text)| <= 1
  }

  /** `summarize(text)` */
  function Summarize(text: string): (r: string)
    ensures IsShortText(text) ==> (r == [] <==> text == []) && |r| <= |text|
    ensures !IsShortText(text) ==> PeriodOrEmpty(r)
  {
    if IsShortText(text) then ShortSummary(text)
    else
      LongSummaryPeriod(SummarySentences(text), Split(text));
      LongSummary(SummarySentences(text), Split(text))
  }

  /** Each candidate of the long path is a merge, so the result ends with a period or is empty. */
  lemma LongSummaryPeriod(ss: seq<string>, ws: seq<string>)
    requires |ss| >= 2
    ensures PeriodOrEmpty(LongSummary(ss, ws))
  {
    var scores := SentenceScores(ss, TableWords(ws, SummaryStopWords, 2));
    SettledPeriod(ss, |ws|, scores);
  }

  /** A string that is empty or ends with `.`. */
  predicate PeriodOrEmpty(x: string) {
    x == [] || x[|x| - 1] == '.'
  }

  /** Whichever merge `Settle` picks ends with a period, unless it is empty. */
  lemma SettledPeriod(ss: seq<string>, wc: nat, scores: seq<int>)
    requires |ss| >= 2 && |scores| == |ss|
    ensures PeriodOrEmpty(Settle(MergeSummary(Best(ss, scores, PickCount(|ss|))), MergeSummary(Take(ss, 3)),
                                 MergeSummary(Best(ss, scores, 2)), wc, |ss|))
  {
    var first := MergeSummary(Best(ss, scores, PickCount(|ss|)));
    var fallback := MergeSummary(Take(ss, 3));
    var trimmed := MergeSummary(Best(ss, scores, 2));
    SettlePeriod(first, fallback, trimmed, wc, |ss|);
  }

  lemma SettlePeriod(first: string, fallback: string, trimmed: string, wc: nat, n: nat)
    requires PeriodOrEmpty(first) && PeriodOrEmpty(fallback) && PeriodOrEmpty(trimmed)
    ensures PeriodOrEmpty(Settle(first, fallback, trimmed, wc, n))
  {
  }

  /** Every sentence of `ss` keeps something after compression. */
  predicate Compressible(ss: seq<string>) {
    forall k :: 0 <= k < |ss| ==> CompressSentence(ss[k]) != []
  }

  /**
   * A text is never summarised to nothing: a short one keeps its compression or itself, and a
   * long one whose sentences all keep something after compression has a non-empty merge.
   */
  lemma SummarizeNonEmpty(text: string)
    requires text != [] && Compressible(SummarySentences(text))
    ensures Summarize(text) != []
  {
    if !IsShortText(text) {
      LongSummaryNonEmpty(SummarySentences(text), Split(text));
    }
  }

  lemma LongSummaryNonEmpty(ss: seq<string>, ws: seq<string>)
    requires |ss| >= 2 && Compressible(ss)
    ensures LongSummary(ss, ws) != []
  {
    var scores := SentenceScores(ss, TableWords(ws, SummaryStopWords, 2));
    SettledNonEmpty(ss, |ws|, scores);
  }

  /** The fallback and the trimmed merge are never empty, so neither is what `Settle` picks. */
  lemma SettledNonEmpty(ss: seq<string>, wc: nat, scores: seq<int>)
    requires |ss| >= 2 && |scores| == |ss| && Compressible(ss)
    ensures Settle(MergeSummary(Best(ss, scores, PickCount(|ss|))), MergeSummary(Take(ss, 3)),
                   MergeSummary(Best(ss, scores, 2)), wc, |ss|) != []
  {
    var first := MergeSummary(Best(ss, scores, PickCount(|ss|)));
    var fallback := MergeSummary(Take(ss, 3));
    var trimmed := MergeSummary(Best(ss, scores, 2));
    MergeNonEmpty(Take(ss, 3));
    BestNonEmpty(ss, scores, 2);
    SettleNonEmpty(first, fallback, trimmed, wc, |ss|);
  }

  lemma SettleNonEmpty(first: string, fallback: string, trimmed: string, wc: nat, n: nat)
    requires fallback != [] && trimmed != []
    ensures Settle(first, fallback, trimmed, wc, n) != []
  {
  }

  /** The merge of at least one of the best sentences is not empty. */
  lemma BestNonEmpty(ss: seq<string>, scores: seq<int>, k: nat)
    requires |scores| == |ss| && ss != [] && k >= 1 && Compressible(ss)
    ensures MergeSummary(Best(ss, scores, k)) != []
  {
    TopSize(scores, k);
    TopInBounds(scores, k);
    var idx := TopInOrder(scores, k);
    var b := Best(ss, scores, k);
    assert b[0] == ss[idx[0]];
    MergeNonEmpty(b);
  }

  /** The first sentence always opens its own group, so a merge led by a compressible one is not empty. */
  lemma MergeNonEmpty(ss: seq<string>)
    requires ss != [] && CompressSentence(ss[0]) != []
    ensures MergeSummary(ss) != []
  {
    var d := Dedupe(ss, PrefixKey, {});
    DedupeKeepsHead(ss, PrefixKey);
    PartsLeadNonEmpty(d);
    JoinLeadNonEmpty(CompressedParts(d), ". ");
  }

  lemma PartsLeadNonEmpty(ss: seq<string>)
    requires ss != [] && CompressSentence(ss[0]) != []
    ensures CompressedParts(ss) != [] && CompressedParts(ss)[0] != []
  {
    assert CompressedParts(ss) == [CompressSentence(ss[0])] + CompressedParts(ss[1..]);
  }

  /**
   * A short text that compression leaves alone comes back unchanged: it is stripped, has no
   * trailing terminator and no opening, and starts with a character `upper()` keeps.
   */
  lemma SummarizeKeepsPlain(text: string)
    requires IsShortText(text) && Stripped(text)
    requires text == [] || (!IsTerminal(text[|text| - 1]) && UpperChar(text[0]) == text[0])
    requires forall k :: 0 <= k < |Openers| ==> MatchOpener(text, Openers[k]).None?
    ensures Summarize(text) == text
  {
    CompressPlain(text);
    CapitalizeFixed(text);
    ShortSummaryFixed(text);
  }

  lemma CapitalizeFixed(text: string)
    requires text == [] || UpperChar(text[0]) == text[0]
    ensures Capitalize(text) == text
  {
    if text != [] {
      assert [text[0]] + text[1..] == text;
    }
  }

  /** A text that compresses to itself is its own short summary. */
  lemma ShortSummaryFixed(text: string)
    requires CompressSentence(text) == text
    ensures ShortSummary(text) == text
  {
  }

  /** The short text of the module's tests is its own summary. */
  lemma SummarizeShortText(t: string)
    requires t == "Short text"
    ensures Summarize(t) == t
  {
    SplitCountBound(t);
    ShortTextPlain(t);
    ShortTextNoOpener(t);
    SummarizeKeepsPlain(t);
  }

  lemma ShortTextPlain(t: string)
    requires t == "Short text"
    ensures Stripped(t) && !IsTerminal(t[|t| - 1]) && UpperChar(t[0]) == t[0]
  {
    assert t[0] == 'S' && t[|t| - 1] == 't';
  }

  /** No opening starts with "sh", in any case. */
  lemma ShortTextNoOpener(t: string)
    requires t == "Short text"
    ensures forall k :: 0 <= k < |Openers| ==> MatchOpener(t, Openers[k]).None?
  {
    assert LowerChar(t[0]) == 's' && LowerChar(t[1]) == 'h';
    forall k | 0 <= k < |Openers| ensures MatchOpener(t, Openers[k]).None? {
      var alts := Openers[k].groups[0];
      forall i | 0 <= i < |alts| ensures !(|alts[i]| <= |t| && MatchesAt(t, 0, alts[i])) {
        assert alts[i][0] != 's' || alts[i][1] != 'h';
      }
      NoAltNoMatch(t, alts, Openers[k].groups[1..], Openers[k].tail);
    }
  }

  /** The summary never has more words than the text. */
  lemma SummarizeWords(text: string)
    ensures |Split(Summarize(text))| <= |Split(text)|
  {
    if !IsShortText(text) {
      var ss := SummarySentences(text);
      var ws := Split(text);
      SentenceWords(text);
      TotalWordsFlatten(ss);
      LongSummaryWords(ss, ws);
    }
  }

  lemma LongSummaryWords(ss: seq<string>, ws: seq<string>)
    requires |ss| >= 2
    ensures |Split(LongSummary(ss, ws))| <= TotalWords(ss)
  {
    var scores := SentenceScores(ss, TableWords(ws, SummaryStopWords, 2));
    SettledWords(ss, |ws|, scores);
  }

  /** Whichever merge `Settle` picks, it has at most the words of all the sentences. */
  lemma SettledWords(ss: seq<string>, wc: nat, scores: seq<int>)
    requires |ss| >= 2 && |scores| == |ss|
    ensures |Split(Settle(MergeSummary(Best(ss, scores, PickCount(|ss|))), MergeSummary(Take(ss, 3)),
                          MergeSummary(Best(ss, scores, 2)), wc, |ss|))| <= TotalWords(ss)
  {
    var first := MergeSummary(Best(ss, scores, PickCount(|ss|)));
    var fallback := MergeSummary(Take(ss, 3));
    var trimmed := MergeSummary(Best(ss, scores, 2));
    assert |Split(first)| <= TotalWords(ss) by {
      BestWords(ss, scores, PickCount(|ss|));
    }
    assert |Split(trimmed)| <= TotalWords(ss) by {
      BestWords(ss, scores, 2);
    }
    assert |Split(fallback)| <= TotalWords(ss) by {
      MergeWords(Take(ss, 3));
      PrefixWords(ss, Min(3, |ss|));
    }
    SettleWords(first, fallback, trimmed, wc, |ss|, TotalWords(ss));
  }

  lemma SettleWords(first: string, fallback: string, trimmed: string, wc: nat, n: nat, bound: nat)
    requires |Split(first)| <= bound && |Split(fallback)| <= bound && |Split(trimmed)| <= bound
    ensures |Split(Settle(first, fallback, trimmed, wc, n))| <= bound
  {
  }

  /** The merge of the best sentences has at most the words of all the sentences. */
  lemma BestWords(ss: seq<string>, scores: seq<int>, k: nat)
    requires |scores| == |ss|
    ensures |Split(MergeSummary(Best(ss, scores, k)))| <= TotalWords(ss)
  {
    TopInBounds(scores, k);
    MergeWords(Best(ss, scores, k));
    SelectWords(ss, TopInOrder(scores, k));
  }

  /**
   * A long text keeps between two and five sentences, and every kept sentence outranks every
   * sentence left out: a higher score, or the same score and earlier in the text.
   */
  lemma SummaryPicksBest(ss: seq<string>, scores: seq<int>, i: nat, j: nat)
    requires |ss| >= 2 && |scores| == |ss|
    requires i in TopInOrder(scores, PickCount(|ss|))
    requires j < |ss| && j !in TopInOrder(scores, PickCount(|ss|))
    ensures 2 <= |TopInOrder(scores, PickCount(|ss|))| <= 5
    ensures i < |ss| && (scores[i] > scores[j] || (scores[i] == scores[j] && i < j))
  {
    TopSize(scores, PickCount(|ss|));
    TopBeatsRest(scores, PickCount(|ss|), i, j);
  }

  // ---------------------------------------------------------------------------------------------
  // summarize_sections
  // ---------------------------------------------------------------------------------------------

  /** A value held in a section dict: a string, a number or `None`. */
  datatype Value = Str(s: string) | Num(n: int) | Null

  /** `section.get("text", "")` */
  function TextOf(sec: map<string, Value>): Value {
    if "text" in sec then sec["text"] else Str("")
  }

  /**
   * One section with its "summary" set: the text itself below 20 words, else its summary. A
   * text that is not a string fails on `.split()`, and the handler stores the text as it is.
   */
  function SummarizeSection(sec: map<string, Value>): (r: map<string, Value>)
    ensures "summary" in r
    ensures forall k :: k != "summary" ==> (k in r <==> k in sec)
    ensures forall k :: k in sec && k != "summary" ==> r[k] == sec[k]
    ensures TextOf(sec).Str? ==>
      r["summary"].Str? && |Split(r["summary"].s)| <= |Split(TextOf(sec).s)|
    ensures TextOf(sec).Str? && |Split(TextOf(sec).s)| < 20 ==> r["summary"] == TextOf(sec)
    ensures !TextOf(sec).Str? ==> r["summary"] == TextOf(sec)
  {
    match TextOf(sec)
    case Str(t) => sec["summary" := Str(SectionSummary(t))]
    case _ => sec["summary" := TextOf(sec)]
  }

  /** The summary of a section's text: the text itself below 20 words, else `summarize(text)`. */
  function SectionSummary(t: string): (r: string)
    ensures |Split(r)| <= |Split(t)|
    ensures |Split(t)| < 20 ==> r == t
  {
    SummarizeWords(t);
    if |Split(t)| < 20 then t else Summarize(t)
  }

  /** `summarize_sections(sections)` */
  function SummarizeSections(secs: seq<map<string, Value>>): (r: seq<map<string, Value>>)
    ensures |r| == |secs|
    ensures forall i :: 0 <= i < |secs| ==> r[i] == SummarizeSection(secs[i])
  {
    seq(|secs|, i requires 0 <= i < |secs| => SummarizeSection(secs[i]))
  }

  /** Summarising summarised sections changes nothing: the summary is recomputed from the same text. */
  lemma SummarizeSectionsIdempotent(secs: seq<map<string, Value>>)
    ensures SummarizeSections(SummarizeSections(secs)) == SummarizeSections(secs)
  {
    var once := SummarizeSections(secs);
    forall i | 0 <= i < |secs| ensures SummarizeSection(once[i]) == once[i] {
      SummarizeSectionTwice(secs[i]);
    }
  }

  lemma SummarizeSectionTwice(sec: map<string, Value>)
    ensures SummarizeSection(SummarizeSection(sec)) == SummarizeSection(sec)
  {
    var once := SummarizeSection(sec);
    assert TextOf(once) == TextOf(sec);
    assert once["summary" := once["summary"]] == once;
  }
}
