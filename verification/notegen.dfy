/**
 * `NoteGenerator` (backend/modules/note_generator.py): the Markdown note built from the
 * transcription, the processed transcript and the summaries, and its plain-text version.
 *
 * The input dicts become records whose fields are `None` where the key is missing; a value is
 * carried as the text its f-string prints. The timestamp is an input.
 */
module NoteGenerator {
  import opened Wrappers
  import opened Strings
  import opened Seqs

  datatype TranscriptData = TranscriptData(duration: Option<string>, language: Option<string>)

  datatype SectionData = SectionData(text: Option<string>)

  datatype ProcessedData = ProcessedData(
    keywords: Option<seq<string>>,
    sections: Option<seq<SectionData>>,
    cleanedText: Option<string>,
    wordCount: Option<int>,
    sentenceCount: Option<int>)

  datatype Summaries = Summaries(overallSummary: Option<string>, bulletPoints: Option<seq<string>>)

  const NotAvailable: string := "N/A"
  const DefaultSummary: string := "Well-organized lecture notes"
  const Memo: string := "\U{1F4DD}"
  const Microphone: string := "\U{1F399}\U{FE0F}"

  // ---------------------------------------------------------------------------------------------
  // _build_markdown
  // ---------------------------------------------------------------------------------------------

  /** One key point: `f"{i}. {point}\n"`. */
  function PointLine(i: nat, point: string): string {
    NatToString(i) + ". " + point + "\n"
  }

  /** The key points numbered from `i` on, as `enumerate(points, i)` gives. */
  function PointLines(points: seq<string>, i: nat): (r: seq<string>)
    ensures |r| == |points|
    ensures forall k :: 0 <= k < |points| ==> r[k] == PointLine(i + k, points[k])
    decreases |points|
  {
    if points == [] then [] else [PointLine(i, points[0])] + PointLines(points[1..], i + 1)
  }

  /** The length of the run of digits at the start of `s`. */
  function DigitsEnd(s: string): (d: nat)
    ensures d <= |s| && forall k :: 0 <= k < d ==> IsDigit(s[k])
    ensures d < |s| ==> !IsDigit(s[d])
    decreases |s|
  {
    if s != [] && IsDigit(s[0]) then 1 + DigitsEnd(s[1..]) else 0
  }

  /** Reads a key-point line back into its number and its point. */
  function ParsePointLine(line: string): (r: Option<(nat, string)>)
  {
    var d := DigitsEnd(line);
    if 0 < d && d + 3 <= |line| && line[d..d + 2] == ". " && line[|line| - 1] == '\n' then
      Some((ParseNat(line[..d]), line[d + 2..|line| - 1]))
    else None
  }

  /** A key-point line gives back its number and its point. */
  lemma PointLineRoundTrip(i: nat, point: string)
    ensures ParsePointLine(PointLine(i, point)) == Some((i, point))
  {
    var n := NatToString(i);
    var rest := ". " + point + "\n";
    var line := n + rest;
    assert PointLine(i, point) == line;
    DigitsPrefix(n, rest);
    assert line[..|n|] == n;
    assert line[|n|..|n| + 2] == ". ";
    assert line[|n| + 2..|line| - 1] == point;
    ParseNatToString(i);
  }

  /** The digit run of a numeral followed by a non-digit is the numeral. */
  lemma {:induction false} DigitsPrefix(n: string, rest: string)
    requires forall k :: 0 <= k < |n| ==> IsDigit(n[k])
    requires rest != [] && !IsDigit(rest[0])
    ensures DigitsEnd(n + rest) == |n|
    decreases |n|
  {
    if n != [] {
      assert (n + rest)[1..] == n[1..] + rest;
      DigitsPrefix(n[1..], rest);
    } else {
      assert n + rest == rest;
    }
  }

  /** One keyword: `f"- {keyword}\n"`. */
  function KeywordLine(keyword: string): string {
    "- " + keyword + "\n"
  }

  function KeywordLines(keywords: seq<string>): (r: seq<string>)
    ensures |r| == |keywords| && forall k :: 0 <= k < |r| ==> r[k] == KeywordLine(keywords[k])
  {
    seq(|keywords|, k requires 0 <= k < |keywords| => KeywordLine(keywords[k]))
  }

  /** The keyword a keyword line lists. */
  function KeywordOf(line: string): string {
    if |line| >= 3 then line[2..|line| - 1] else ""
  }

  /** A section's text as rendered: over 300 characters it is cut to 300 and marked with `...`. */
  function Truncate(text: string): (r: string)
    ensures |r| <= 303
    ensures |text| <= 300 ==> r == text
    ensures |text| > 300 ==> |r| == 303 && r[..300] == text[..300] && r[300..] == "..."
  {
    if |text| > 300 then text[..300] + "..." else text
  }

  /** One topic: `f"### Topic {i}\n\n"`, then the rendered text and a blank line. */
  function TopicBlock(i: nat, section: SectionData): seq<string> {
    ["### Topic " + NatToString(i) + "\n\n", Truncate(section.text.GetOr("")) + "\n\n"]
  }

  /** The topics numbered from `i` on, as `enumerate(sections, i)` gives. */
  function TopicBlocks(sections: seq<SectionData>, i: nat): (r: seq<seq<string>>)
    ensures |r| == |sections|
    ensures forall k :: 0 <= k < |sections| ==> r[k] == TopicBlock(i + k, sections[k])
    decreases |sections|
  {
    if sections == [] then [] else [TopicBlock(i, sections[0])] + TopicBlocks(sections[1..], i + 1)
  }

  function HeaderLines(title: string, stamp: string, t: TranscriptData): seq<string> {
    [ "# " + title + "\n",
      "*Generated on: " + stamp + "*\n",
      "**Duration:** " + t.duration.GetOr(NotAvailable) + " seconds\n",
      "**Language:** " + t.language.GetOr(NotAvailable) + "\n\n" ]
  }

  function ContentsLines(): seq<string> {
    [ "## Table of Contents\n",
      "- [" + Memo + " Simplified Notes](#simplified-notes)\n",
      "- [" + Microphone + " Full Transcription](#full-transcription)\n\n" ]
  }

  function SummaryLines(s: Summaries): seq<string> {
    [ "---\n\n",
      "# " + Memo + " Simplified Notes\n",
      "*Easy-to-read, organized version with key points*\n\n",
      "## Summary\n\n",
      s.overallSummary.GetOr(DefaultSummary) + "\n\n" ]
  }

  function KeyPointSection(s: Summaries): seq<string> {
    ["## Key Points\n\n"] + PointLines(s.bulletPoints.GetOr([]), 1) + ["\n"]
  }

  function KeywordSection(p: ProcessedData): seq<string> {
    ["## Key Terms & Concepts\n\n"] + KeywordLines(Take(p.keywords.GetOr([]), 10)) + ["\n"]
  }

  function TopicSection(p: ProcessedData): seq<string> {
    ["## Main Topics\n\n"] + Flatten(TopicBlocks(Take(p.sections.GetOr([]), 5), 1))
  }

  function TranscriptionLines(p: ProcessedData): seq<string> {
    [ "---\n\n",
      "# " + Microphone + " Full Transcription\n",
      "*Complete word-by-word transcript from audio*\n\n",
      p.cleanedText.GetOr(NotAvailable) + "\n\n" ]
  }

  function StatisticsLines(t: TranscriptData, p: ProcessedData): seq<string> {
    [ "---\n\n",
      "## Statistics\n\n",
      "- **Word Count:** " + IntToString(p.wordCount.GetOr(0)) + "\n",
      "- **Sentence Count:** " + IntToString(p.sentenceCount.GetOr(0)) + "\n",
      "- **Duration:** " + t.duration.GetOr(NotAvailable) + " seconds\n",
      "- **Language:** " + t.language.GetOr(NotAvailable) + "\n" ]
  }

  /** The `md` list of `_build_markdown`, in the order its pieces are appended. */
  function MarkdownLines(title: string, stamp: string, t: TranscriptData, p: ProcessedData, s: Summaries): seq<string> {
    HeaderLines(title, stamp, t) + ContentsLines() + SummaryLines(s) + KeyPointSection(s)
    + KeywordSection(p) + TopicSection(p) + TranscriptionLines(p) + StatisticsLines(t, p)
  }

  /** `_build_markdown(title, transcript_data, processed_data, summaries)` with the timestamp given. */
  /** The note starts with the title as a level-one heading. */
  function BuildMarkdown(title: string, stamp: string, t: TranscriptData, p: ProcessedData, s: Summaries): (r: string)
    ensures StartsWith(r, "# " + title + "\n")
  {
    var lines := MarkdownLines(title, stamp, t, p, s);
    assert lines[0] == "# " + title + "\n";
    assert Flatten(lines) == lines[0] + Flatten(lines[1..]);
    Flatten(lines)
  }

  /** Line `k + 1` of the key-point part reads back as number `k + 1` and the `k`-th point. */
  lemma KeyPointsNumbered(s: Summaries, k: nat)
    requires k < |s.bulletPoints.GetOr([])|
    ensures var points := s.bulletPoints.GetOr([]);
      ParsePointLine(KeyPointSection(s)[k + 1]) == Some((k + 1, points[k]))
  {
    var points := s.bulletPoints.GetOr([]);
    assert KeyPointSection(s)[k + 1] == PointLines(points, 1)[k];
    PointLineRoundTrip(k + 1, points[k]);
  }

  /** The keyword lines list exactly the first ten keywords, in order. */
  lemma KeywordsListed(p: ProcessedData)
    ensures var lines := KeywordSection(p)[1..|KeywordSection(p)| - 1];
      |lines| == Min(10, |p.keywords.GetOr([])|) &&
      seq(|lines|, k requires 0 <= k < |lines| => KeywordOf(lines[k])) == Take(p.keywords.GetOr([]), 10)
  {
    var ks := Take(p.keywords.GetOr([]), 10);
    var lines := KeywordSection(p)[1..|KeywordSection(p)| - 1];
    assert lines == KeywordLines(ks);
    forall k | 0 <= k < |ks| ensures KeywordOf(lines[k]) == ks[k] {
      var line := KeywordLine(ks[k]);
      assert line == "- " + ks[k] + "\n";
      assert line[2..|line| - 1] == ks[k];
    }
  }

  /** At most five topics are shown, numbered from 1, each text verbatim or cut to 300 plus `...`. */
  lemma TopicsShown(p: ProcessedData)
    ensures var secs := p.sections.GetOr([]);
      var blocks := TopicBlocks(Take(secs, 5), 1);
      && |blocks| == Min(5, |secs|)
      && forall k :: 0 <= k < |blocks| ==>
           && blocks[k][0] == "### Topic " + NatToString(k + 1) + "\n\n"
           && ParseNat(NatToString(k + 1)) == k + 1
           && var text := secs[k].text.GetOr("");
              blocks[k][1] == (if |text| > 300 then text[..300] + "..." else text) + "\n\n"
  {
    var secs := p.sections.GetOr([]);
    var blocks := TopicBlocks(Take(secs, 5), 1);
    forall n: nat | 1 <= n <= |blocks| ensures ParseNat(NatToString(n)) == n {
      ParseNatToString(n);
    }
  }

  /** Each input with every missing entry replaced by its default. */
  function TranscriptDefaults(t: TranscriptData): TranscriptData {
    TranscriptData(Some(t.duration.GetOr("N/A")), Some(t.language.GetOr("N/A")))
  }

  function ProcessedDefaults(p: ProcessedData): ProcessedData {
    ProcessedData(Some(p.keywords.GetOr([])), Some(p.sections.GetOr([])), Some(p.cleanedText.GetOr("N/A")),
                  Some(p.wordCount.GetOr(0)), Some(p.sentenceCount.GetOr(0)))
  }

  function SummariesDefaults(s: Summaries): Summaries {
    Summaries(Some(s.overallSummary.GetOr("Well-organized lecture notes")), Some(s.bulletPoints.GetOr([])))
  }

  /**
   * A missing entry reads as its default: the note of the inputs is the note of the inputs with
   * `'N/A'`, `'Well-organized lecture notes'`, `0` and empty lists written in.
   */
  lemma MissingReadsAsDefault(title: string, stamp: string, t: TranscriptData, p: ProcessedData, s: Summaries)
    ensures BuildMarkdown(title, stamp, t, p, s)
         == BuildMarkdown(title, stamp, TranscriptDefaults(t), ProcessedDefaults(p), SummariesDefaults(s))
  {
  }

  // ---------------------------------------------------------------------------------------------
  // _extract_plain_text
  // ---------------------------------------------------------------------------------------------

  /** The characters the plain text drops everywhere. */
  predicate IsMarkupChar(c: char) {
    c == '*' || c == '_' || c == '[' || c == ']' || c == '(' || c == ')'
  }

  predicate NoMarkupChars(s: string) {
    forall k :: 0 <= k < |s| ==> !IsMarkupChar(s[k])
  }

  /** Emphasis, underscores, brackets and parentheses removed, in the order the code removes them. */
  function StripInline(s: string): (r: string)
    ensures |r| <= |s|
    ensures NoMarkupChars(r)
  {
    var a := Delete(Delete(s, "**"), "*");
    var b := Delete(a, "_");
    var c := Delete(Delete(b, "["), "]");
    var d := Delete(c, "(");
    var r := Delete(d, ")");
    assert forall k :: 0 <= k < |r| ==> r[k] in d && r[k] != ')';
    assert forall x :: x in d ==> x in c && x != '(';
    assert forall x :: x in c ==> x in b && x != ']' && x != '[';
    assert forall x :: x in b ==> x in a && x != '_';
    assert '*' !in a;
    r
  }

  /** Every occurrence of each marker removed, one marker after the other, in the order given. */
  function DeleteAll(s: string, markers: seq<string>): (r: string)
    requires forall k :: 0 <= k < |markers| ==> markers[k] != []
    ensures |r| <= |s|
    decreases |markers|
  {
    if markers == [] then s else DeleteAll(Delete(s, markers[0]), markers[1..])
  }

  /** Heading markers removed as the code removes them: `"# "` first, then `"## "`, then `"### "`. */
  function DeleteHeadings(s: string): (r: string)
    ensures |r| <= |s|
  {
    DeleteAll(s, ["# ", "## ", "### "])
  }

  /** `_extract_plain_text(markdown_content)` */
  function ExtractPlainText(md: string): (r: string)
    ensures |r| <= |md|
    ensures NoMarkupChars(r)
  {
    StripInline(DeleteHeadings(md))
  }

  /** A string holding `[c] + p` holds `p`. */
  lemma {:induction false} ContainsTail(s: string, c: char, p: string)
    requires Contains(s, [c] + p)
    ensures Contains(s, p)
    decreases |s|
  {
    if StartsWith(s, [c] + p) {
      assert s[..1 + |p|] == [c] + p;
      assert s[1..][..|p|] == s[..1 + |p|][1..];
      assert ([c] + p)[1..] == p;
      assert StartsWith(s[1..], p);
    } else {
      ContainsTail(s[1..], c, p);
    }
  }

  /** A string holding a non-empty pattern holds its first character. */
  lemma {:induction false} ContainsHead(s: string, p: string)
    requires p != [] && Contains(s, p)
    ensures p[0] in s
    decreases |s|
  {
    if StartsWith(s, p) {
      assert s[0] == p[0];
    } else {
      ContainsHead(s[1..], p);
      assert p[0] in s[1..];
    }
  }

  /** A string without `c` does not hold any pattern starting with `c`. */
  lemma Lacks(s: string, p: string)
    requires p != [] && p[0] !in s
    ensures !Contains(s, p)
  {
    if Contains(s, p) {
      ContainsHead(s, p);
    }
  }

  /** Text without markup characters loses nothing to the inline pass. */
  lemma StripInlineIdentity(s: string)
    requires NoMarkupChars(s)
    ensures StripInline(s) == s
  {
    Lacks(s, "**");
    Lacks(s, "*");
    Lacks(s, "_");
    Lacks(s, "[");
    Lacks(s, "]");
    Lacks(s, "(");
    Lacks(s, ")");
  }

  /** The plain text of text with no markup characters and no `"# "` is that text. */
  lemma PlainTextIdentity(md: string)
    requires NoMarkupChars(md) && !Contains(md, "# ")
    ensures ExtractPlainText(md) == md
  {
    assert "## " == ['#'] + "# " && "### " == ['#'] + "## ";
    if Contains(md, "## ") {
      ContainsTail(md, '#', "# ");
    }
    if Contains(md, "### ") {
      ContainsTail(md, '#', "## ");
      ContainsTail(md, '#', "# ");
    }
    assert DeleteHeadings(md) == md;
    StripInlineIdentity(md);
  }

  // ---------------------------------------------------------------------------------------------
  // The order of the heading replacements
  // ---------------------------------------------------------------------------------------------

  /**
   * The corrected order of `DeleteHeadings`: the same markers removed longest first, so that
   * `"## "` and `"### "` lose their `#` marks.
   */
  function DeleteHeadingsLongestFirst(s: string): (r: string)
    ensures |r| <= |s|
  {
    DeleteAll(s, ["### ", "## ", "# "])
  }

  /** The plain text with the heading markers removed longest first. */
  function ExtractPlainTextLongestFirst(md: string): (r: string)
    ensures |r| <= |md|
    ensures NoMarkupChars(r)
  {
    StripInline(DeleteHeadingsLongestFirst(md))
  }

  /** Longest first, too, the plain text of text with no markup characters and no `"# "` is that text. */
  lemma PlainTextIdentityLongestFirst(md: string)
    requires NoMarkupChars(md) && !Contains(md, "# ")
    ensures ExtractPlainTextLongestFirst(md) == md
  {
    assert "## " == ['#'] + "# " && "### " == ['#'] + "## ";
    if Contains(md, "## ") {
      ContainsTail(md, '#', "# ");
    }
    if Contains(md, "### ") {
      ContainsTail(md, '#', "## ");
      ContainsTail(md, '#', "# ");
    }
    assert DeleteHeadingsLongestFirst(md) == md;
    StripInlineIdentity(md);
  }

  /** A string `pre + x` holds no pattern that starts with a character `x` lacks, unless at `pre`. */
  lemma {:induction false} LacksAfter(pre: string, x: string, p: string)
    requires p != [] && p[0] !in x
    requires forall i :: 0 <= i < |pre| ==> !StartsWith(pre[i..] + x, p)
    ensures !Contains(pre + x, p)
    decreases |pre|
  {
    if pre == [] {
      assert pre + x == x;
      Lacks(x, p);
    } else {
      assert pre[0..] == pre;
      assert (pre + x)[1..] == pre[1..] + x;
      forall i | 0 <= i < |pre| - 1 ensures !StartsWith(pre[1..][i..] + x, p) {
        assert pre[1..][i..] == pre[i + 1..];
      }
      LacksAfter(pre[1..], x, p);
    }
  }

  /** `s` does not start with `p` when they differ at `j`, or `s` ends before `j`. */
  lemma Mismatch(s: string, p: string, j: nat)
    requires j < |p| && (j >= |s| || s[j] != p[j])
    ensures !StartsWith(s, p)
  {
    if |p| <= |s| {
      assert s[..|p|][j] == s[j];
    }
  }

  /** The deletion of `p` from `pre + x` when `x` does not hold `p`. */
  lemma DeleteStep(c: char, x: string, p: string)
    requires p != [] && |p| <= 1 + |x|
    ensures ([c] + x)[..|p|] == p ==> Delete([c] + x, p) == Delete(([c] + x)[|p|..], p)
    ensures ([c] + x)[..|p|] != p ==> Delete([c] + x, p) == [c] + Delete(x, p)
  {
    assert ([c] + x)[1..] == x;
  }

  /** With the longest marker first, the plain text of a heading of level 1 to 3 is its text. */
  lemma LongestFirstHeadings(x: string)
    requires NoMarkupChars(x) && '#' !in x
    ensures ExtractPlainTextLongestFirst("# " + x) == x
    ensures ExtractPlainTextLongestFirst("## " + x) == x
    ensures ExtractPlainTextLongestFirst("### " + x) == x
  {
    StripInlineIdentity(x);
    Lacks(x, "# ");
    Lacks(x, "## ");
    Lacks(x, "### ");
    LongestFirstLevel1(x);
    LongestFirstLevel2(x);
    LongestFirstLevel3(x);
  }

  lemma LongestFirstLevel1(x: string)
    requires '#' !in x
    ensures DeleteHeadingsLongestFirst("# " + x) == x
  {
    var h := "# " + x;
    assert "# "[0..] + x == h && "# "[1..] + x == " " + x;
    Mismatch(h, "### ", 1);
    Mismatch(" " + x, "### ", 0);
    LacksAfter("# ", x, "### ");
    Mismatch(h, "## ", 1);
    Mismatch(" " + x, "## ", 0);
    LacksAfter("# ", x, "## ");
    assert h[..2] == "# " && h[2..] == x;
    Lacks(x, "# ");
  }

  lemma LongestFirstLevel2(x: string)
    requires '#' !in x
    ensures DeleteHeadingsLongestFirst("## " + x) == x
  {
    var h := "## " + x;
    assert "## "[0..] + x == h && "## "[1..] + x == "# " + x && "## "[2..] + x == " " + x;
    Mismatch(h, "### ", 2);
    Mismatch("# " + x, "### ", 1);
    Mismatch(" " + x, "### ", 0);
    LacksAfter("## ", x, "### ");
    assert h[..3] == "## " && h[3..] == x;
    Lacks(x, "## ");
    Lacks(x, "# ");
  }

  lemma LongestFirstLevel3(x: string)
    requires '#' !in x
    ensures DeleteHeadingsLongestFirst("### " + x) == x
  {
    var h := "### " + x;
    assert h[..4] == "### " && h[4..] == x;
    Lacks(x, "### ");
    Lacks(x, "## ");
    Lacks(x, "# ");
  }

  /** As written, `"# "` goes first, and a level-2 or level-3 heading keeps all but one `#`. */
  lemma AsWrittenHeadings(x: string)
    requires NoMarkupChars(x) && '#' !in x && (x == [] || x[0] != ' ')
    ensures ExtractPlainText("# " + x) == x
    ensures ExtractPlainText("## " + x) == "#" + x
    ensures ExtractPlainText("### " + x) == "##" + x
  {
    PlainLevel1(x);
    PlainLevel2(x);
    PlainLevel3(x);
  }

  lemma PlainLevel1(x: string)
    requires NoMarkupChars(x) && '#' !in x && (x == [] || x[0] != ' ')
    ensures ExtractPlainText("# " + x) == x
  {
    AsWrittenLevel1(x);
    StripInlineIdentity(x);
  }

  lemma PlainLevel2(x: string)
    requires NoMarkupChars(x) && '#' !in x && (x == [] || x[0] != ' ')
    ensures ExtractPlainText("## " + x) == "#" + x
  {
    AsWrittenLevel2(x);
    HashesNoMarkup();
    NoMarkupConcat("#", x);
    StripInlineIdentity("#" + x);
  }

  lemma PlainLevel3(x: string)
    requires NoMarkupChars(x) && '#' !in x && (x == [] || x[0] != ' ')
    ensures ExtractPlainText("### " + x) == "##" + x
  {
    AsWrittenLevel3(x);
    HashesNoMarkup();
    NoMarkupConcat("##", x);
    StripInlineIdentity("##" + x);
  }

  lemma HashesNoMarkup()
    ensures NoMarkupChars("#") && NoMarkupChars("##")
  {
  }

  lemma NoMarkupConcat(p: string, x: string)
    requires NoMarkupChars(p) && NoMarkupChars(x)
    ensures NoMarkupChars(p + x)
  {
    var s := p + x;
    forall k | 0 <= k < |s| ensures !IsMarkupChar(s[k]) {
      if k >= |p| {
        assert s[k] == x[k - |p|];
      }
    }
  }

  lemma AsWrittenLevel1(x: string)
    requires '#' !in x
    ensures DeleteHeadings("# " + x) == x
  {
    var h := "# " + x;
    assert h[..2] == "# " && h[2..] == x;
    Lacks(x, "# ");
    Lacks(x, "## ");
    Lacks(x, "### ");
  }

  /** The first pass turns `"## " + x` into `"#" + x`. */
  lemma FirstPassLevel2(x: string)
    requires '#' !in x
    ensures Delete("## " + x, "# ") == "#" + x
  {
    var h := "## " + x;
    DeleteStep('#', "# " + x, "# ");
    assert h == ['#'] + ("# " + x);
    assert h[..2] != "# " by {
      assert h[1] == '#';
    }
    assert ("# " + x)[..2] == "# " && ("# " + x)[2..] == x;
    Lacks(x, "# ");
  }

  /** The first pass turns `"### " + x` into `"##" + x`. */
  lemma FirstPassLevel3(x: string)
    requires '#' !in x
    ensures Delete("### " + x, "# ") == "##" + x
  {
    FirstPassLevel2(x);
    var g := "## " + x;
    assert g[0] == '#' && |g| >= 2;
    HashCons(g, "#" + x);
    assert ['#'] + g == "### " + x;
    assert ['#'] + ("#" + x) == "##" + x;
  }

  /** A `#` before a string that starts with `#` survives the deletion of `"# "`. */
  lemma HashCons(g: string, y: string)
    requires |g| >= 1 && g[0] == '#' && Delete(g, "# ") == y
    ensures Delete(['#'] + g, "# ") == ['#'] + y
  {
    Mismatch(['#'] + g, "# ", 1);
    DeleteStep('#', g, "# ");
  }

  lemma AsWrittenLevel2(x: string)
    requires '#' !in x
    ensures DeleteHeadings("## " + x) == "#" + x
  {
    FirstPassLevel2(x);
    assert "#"[0..] + x == "#" + x;
    Mismatch("#" + x, "## ", 1);
    Mismatch("#" + x, "### ", 1);
    LacksAfter("#", x, "## ");
    LacksAfter("#", x, "### ");
  }

  lemma AsWrittenLevel3(x: string)
    requires '#' !in x && (x == [] || x[0] != ' ')
    ensures DeleteHeadings("### " + x) == "##" + x
  {
    FirstPassLevel3(x);
    assert "##"[0..] + x == "##" + x && "##"[1..] + x == "#" + x;
    Mismatch("##" + x, "## ", 2);
    Mismatch("#" + x, "## ", 1);
    Mismatch("##" + x, "### ", 2);
    Mismatch("#" + x, "### ", 1);
    LacksAfter("##", x, "## ");
    LacksAfter("##", x, "### ");
  }

  /** The note's own `## Summary` heading comes out as `#Summary`. */
  lemma SummaryHeadingKeepsHash(x: string)
    requires x == "Summary"
    ensures ExtractPlainText("## " + x) == "#" + x
    ensures ExtractPlainTextLongestFirst("## " + x) == x
  {
    SummaryPlain(x);
    AsWrittenHeadings(x);
    LongestFirstHeadings(x);
  }

  lemma SummaryPlain(x: string)
    requires x == "Summary"
    ensures '#' !in x && NoMarkupChars(x) && x[0] != ' '
  {
  }

  // ---------------------------------------------------------------------------------------------
  // generate_note_content
  // ---------------------------------------------------------------------------------------------

  /** The note's content: its Markdown and the plain text taken from it (HTML is not modelled). */
  datatype NoteContent = NoteContent(markdown: string, text: string)

  /**
   * `generate_note_content(title, transcript_data, processed_data, summaries)`: the Markdown is
   * the built note, and its plain text is taken as the code takes it, `"# "` removed first; the
   * text is no longer than the Markdown and has no emphasis, underscore, bracket or parenthesis.
   */
  function GenerateNoteContent(title: string, stamp: string, t: TranscriptData, p: ProcessedData, s: Summaries): (r: NoteContent)
    ensures r.text == ExtractPlainText(r.markdown)
    ensures r.markdown == BuildMarkdown(title, stamp, t, p, s)
    ensures StartsWith(r.markdown, "# " + title + "\n")
    ensures |r.text| <= |r.markdown| && NoMarkupChars(r.text)
  {
    var md := BuildMarkdown(title, stamp, t, p, s);
    NoteContent(md, ExtractPlainText(md))
  }

  /** The same content with the heading markers removed longest first, as evidently intended. */
  function GenerateNoteContentIntended(title: string, stamp: string, t: TranscriptData, p: ProcessedData, s: Summaries): (r: NoteContent)
    ensures r.text == ExtractPlainTextLongestFirst(r.markdown)
    ensures r.markdown == GenerateNoteContent(title, stamp, t, p, s).markdown
    ensures StartsWith(r.markdown, "# " + title + "\n")
    ensures |r.text| <= |r.markdown| && NoMarkupChars(r.text)
  {
    var md := BuildMarkdown(title, stamp, t, p, s);
    NoteContent(md, ExtractPlainTextLongestFirst(md))
  }
}
