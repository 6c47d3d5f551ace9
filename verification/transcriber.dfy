/**
 * The pure parts of `Transcriber` (backend/modules/transcriber.py): joining segment texts, the
 * path decision of `extract_audio`, and the topic, text, duration and segment table of the mock
 * transcription produced when speech recognition is unavailable.
 */
module Transcriber {
  import opened Wrappers
  import opened Strings
  import opened Seqs

  // ---------------------------------------------------------------------------------------------
  // combine_segments
  // ---------------------------------------------------------------------------------------------

  /**
   * A segment as `combine_segments` receives it: a dict, whose `text` entry may be missing, or
   * any other value, carried with its `str()`.
   */
  datatype Segment = Record(text: Option<string>) | Other(repr: string)

  /** What one segment contributes before the emptiness test: a dict's text stripped, else `str(seg)`. */
  function Contribution(seg: Segment): (t: string)
    ensures seg.Record? ==> Stripped(t) && Split(t) == Split(seg.text.GetOr(""))
  {
    match seg
    case Record(text) =>
      SplitStripped(text.GetOr(""));
      Strip(text.GetOr(""))
    case Other(repr) => repr
  }

  /** The contribution of every segment, in order. */
  function Contributions(segs: seq<Segment>): (ts: seq<string>)
    ensures |ts| == |segs| && forall k :: 0 <= k < |segs| ==> ts[k] == Contribution(segs[k])
  {
    seq(|segs|, k requires 0 <= k < |segs| => Contribution(segs[k]))
  }

  /** The non-empty contributions, in order: the `texts` list once every segment is seen. */
  function KeptTexts(segs: seq<Segment>): (ts: seq<string>)
    ensures forall k :: 0 <= k < |ts| ==> ts[k] != []
    decreases |segs|
  {
    if segs == [] then []
    else
      var t := Contribution(segs[|segs| - 1]);
      KeptTexts(segs[..|segs| - 1]) + (if t != [] then [t] else [])
  }

  /**
   * `combine_segments(segments)`: the combined text has exactly the words of the segments, in
   * order, is empty exactly when every segment contributes nothing, and is stripped when every
   * segment is a dict.
   */
  method CombineSegments(segs: seq<Segment>) returns (r: string)
    ensures r == Join(KeptTexts(segs), " ")
    ensures Split(r) == Flatten(SplitEach(Contributions(segs)))
    ensures r == [] <==> forall k :: 0 <= k < |segs| ==> Contribution(segs[k]) == []
    ensures (forall k :: 0 <= k < |segs| ==> segs[k].Record?) ==> Stripped(r)
  {
    var texts := CollectTexts(segs);
    r := Join(texts, " ");
    CombinedFacts(segs);
  }

  /** The loop of `combine_segments` that gathers the non-empty texts. */
  method CollectTexts(segs: seq<Segment>) returns (texts: seq<string>)
    ensures texts == KeptTexts(segs)
  {
    texts := [];
    var i := 0;
    while i < |segs|
      invariant 0 <= i <= |segs|
      invariant texts == KeptTexts(segs[..i])
    {
      var t := Contribution(segs[i]);
      assert segs[..i + 1][..i] == segs[..i];
      if t != [] {
        texts := texts + [t];
      }
      i := i + 1;
    }
    assert segs[..|segs|] == segs;
  }

  /** What the joined kept texts satisfy: their words, their emptiness, their ends. */
  lemma CombinedFacts(segs: seq<Segment>)
    ensures var r := Join(KeptTexts(segs), " ");
      && Split(r) == Flatten(SplitEach(Contributions(segs)))
      && (r == [] <==> forall k :: 0 <= k < |segs| ==> Contribution(segs[k]) == [])
      && ((forall k :: 0 <= k < |segs| ==> segs[k].Record?) ==> Stripped(r))
  {
    var texts := KeptTexts(segs);
    SplitJoinSpace(texts);
    KeptWords(segs);
    KeptTextsEmpty(segs);
    JoinEmpty(texts);
    KeptTextsRecords(segs);
    JoinStripped(texts);
  }

  /** Dropping the empty contributions loses no word. */
  lemma {:induction false} KeptWords(segs: seq<Segment>)
    ensures Flatten(SplitEach(KeptTexts(segs))) == Flatten(SplitEach(Contributions(segs)))
    decreases |segs|
  {
    if segs != [] {
      var init := segs[..|segs| - 1];
      var t := Contribution(segs[|segs| - 1]);
      KeptWords(init);
      assert Contributions(segs) == Contributions(init) + [t];
      SplitEachAppend(Contributions(init), [t]);
      FlattenAppend(SplitEach(Contributions(init)), SplitEach([t]));
      assert Flatten(SplitEach([t])) == Split(t) by {
        assert SplitEach([t]) == [Split(t)];
        assert Flatten([Split(t)]) == Split(t) + Flatten([Split(t)][1..]);
      }
      var ext := if t != [] then [t] else [];
      SplitEachAppend(KeptTexts(init), ext);
      FlattenAppend(SplitEach(KeptTexts(init)), SplitEach(ext));
      if t == [] {
        assert SplitEach(ext) == [];
        assert Split(t) == [];
      }
    }
  }

  lemma SplitEachAppend(a: seq<string>, b: seq<string>)
    ensures SplitEach(a + b) == SplitEach(a) + SplitEach(b)
  {
  }

  /** No text is kept exactly when every segment contributes the empty string. */
  lemma {:induction false} KeptTextsEmpty(segs: seq<Segment>)
    ensures KeptTexts(segs) == [] <==> forall k :: 0 <= k < |segs| ==> Contribution(segs[k]) == []
    decreases |segs|
  {
    if segs != [] {
      var init := segs[..|segs| - 1];
      var t := Contribution(segs[|segs| - 1]);
      KeptTextsEmpty(init);
      assert KeptTexts(segs) == KeptTexts(init) + (if t != [] then [t] else []);
      NoContributionSnoc(segs, init, t);
    }
  }

  lemma NoContributionSnoc(segs: seq<Segment>, init: seq<Segment>, t: string)
    requires segs != [] && init == segs[..|segs| - 1] && t == Contribution(segs[|segs| - 1])
    ensures (forall k :: 0 <= k < |segs| ==> Contribution(segs[k]) == []) <==>
      (forall k :: 0 <= k < |init| ==> Contribution(init[k]) == []) && t == []
  {
    assert forall k :: 0 <= k < |init| ==> init[k] == segs[k];
  }

  /** Every kept text of dict segments is stripped. */
  lemma {:induction false} KeptTextsRecords(segs: seq<Segment>)
    ensures (forall k :: 0 <= k < |segs| ==> segs[k].Record?) ==>
      forall k :: 0 <= k < |KeptTexts(segs)| ==> Stripped(KeptTexts(segs)[k])
    decreases |segs|
  {
    if segs != [] {
      var init := segs[..|segs| - 1];
      KeptTextsRecords(init);
      assert forall k :: 0 <= k < |init| ==> init[k] == segs[k];
    }
  }

  /** Joining non-empty texts gives the empty string only for no texts. */
  lemma JoinEmpty(ts: seq<string>)
    requires forall k :: 0 <= k < |ts| ==> ts[k] != []
    ensures Join(ts, " ") == [] <==> ts == []
  {
    if |ts| > 1 {
      assert |Join(ts, " ")| >= |ts[0]|;
    }
  }

  /** Joining non-empty stripped texts with single spaces gives a stripped text. */
  lemma {:induction false} JoinStripped(ts: seq<string>)
    requires forall k :: 0 <= k < |ts| ==> ts[k] != []
    ensures (forall k :: 0 <= k < |ts| ==> Stripped(ts[k])) ==> Stripped(Join(ts, " "))
    decreases |ts|
  {
    if |ts| > 1 && forall k :: 0 <= k < |ts| ==> Stripped(ts[k]) {
      var rest := Join(ts[1..], " ");
      assert forall k :: 0 <= k < |ts| - 1 ==> ts[1..][k] == ts[k + 1];
      JoinStripped(ts[1..]);
      JoinEmpty(ts[1..]);
      var j := ts[0] + " " + rest;
      assert j[0] == ts[0][0];
      assert j[|j| - 1] == rest[|rest| - 1];
    }
  }

  // ---------------------------------------------------------------------------------------------
  // Paths
  // ---------------------------------------------------------------------------------------------

  /** `s.rfind(c)`, as an option. */
  function LastIndex(s: string, c: char): (r: Option<nat>)
    ensures r.Some? ==> r.value < |s| && s[r.value] == c && forall k :: r.value < k < |s| ==> s[k] != c
    ensures r.None? ==> forall k :: 0 <= k < |s| ==> s[k] != c
    decreases |s|
  {
    if s == [] then None
    else if s[|s| - 1] == c then Some(|s| - 1)
    else LastIndex(s[..|s| - 1], c)
  }

  /** `s.find(c)`, as an option. */
  function FirstIndex(s: string, c: char): (r: Option<nat>)
    ensures r.Some? ==> r.value < |s| && s[r.value] == c && forall k :: 0 <= k < r.value ==> s[k] != c
    ensures r.None? ==> forall k :: 0 <= k < |s| ==> s[k] != c
    decreases |s|
  {
    if s == [] then None
    else if s[0] == c then Some(0)
    else
      var r := FirstIndex(s[1..], c);
      if r.Some? then Some(r.value + 1) else None
  }

  /** The path without trailing separators. */
  function TrimSlashes(p: string): (r: string)
    ensures IsPrefix(r, p)
    ensures r == [] || r[|r| - 1] != '/'
    ensures forall k :: |r| <= k < |p| ==> p[k] == '/'
    decreases |p|
  {
    if p != [] && p[|p| - 1] == '/' then TrimSlashes(p[..|p| - 1]) else p
  }

  /** Where the last component of the trimmed path starts. */
  function NameStart(p: string): (i: nat)
    ensures i <= |TrimSlashes(p)|
  {
    var q := TrimSlashes(p);
    match LastIndex(q, '/')
    case Some(k) => k + 1
    case None => 0
  }

  /** `Path(p).name`: the last component. */
  function Name(p: string): (r: string)
    ensures '/' !in r
  {
    TrimSlashes(p)[NameStart(p)..]
  }

  /** The directory part: everything up to and including the separator before the name. */
  function Parent(p: string): (r: string)
    ensures r == [] || r[|r| - 1] == '/'
    ensures r + Name(p) == TrimSlashes(p)
  {
    TrimSlashes(p)[..NameStart(p)]
  }

  /** Where the suffix of a name starts: at its last dot, unless that is its first or last character. */
  function SuffixStart(name: string): (i: nat)
    ensures i <= |name|
  {
    match LastIndex(name, '.')
    case Some(k) => if 0 < k < |name| - 1 then k else |name|
    case None => |name|
  }

  /** `Path(p).suffix` of a name. */
  function Suffix(name: string): (r: string)
    ensures r == [] || (|r| >= 2 && r[0] == '.' && forall k :: 0 < k < |r| ==> r[k] != '.')
  {
    name[SuffixStart(name)..]
  }

  /** `Path(p).stem` of a name. */
  function Stem(name: string): (r: string)
    ensures r + Suffix(name) == name
    ensures name != [] ==> r != []
  {
    name[..SuffixStart(name)]
  }

  // ---------------------------------------------------------------------------------------------
  // extract_audio
  // ---------------------------------------------------------------------------------------------

  const AudioFormats: set<string> := {".mp3", ".wav", ".m4a", ".flac", ".ogg"}

  /** The lower-cased suffix of the file name is one of the audio formats. */
  predicate IsAudio(path: string) {
    Lower(Suffix(Name(path))) in AudioFormats
  }

  /** `p.rsplit(".", 1)[0]`: everything before the last dot of the whole path. */
  function BeforeLastDot(p: string): (r: string)
    ensures IsPrefix(r, p)
    ensures '.' in p ==> |r| < |p| && p[|r|] == '.' && forall k :: |r| < k < |p| ==> p[k] != '.'
    ensures '.' !in p ==> r == p
  {
    match LastIndex(p, '.')
    case Some(k) => p[..k]
    case None => p
  }

  /**
   * The path `extract_audio` returns: an audio file as it is, any other file converted to
   * `.mp3` beside it (see Findings in README.md for the path it names when only a directory
   * carries a dot).
   */
  function ExtractAudioPath(path: string): (r: string)
    ensures IsAudio(path) ==> r == path
    ensures !IsAudio(path) ==> |r| >= 4 && r[|r| - 4..] == ".mp3" && IsPrefix(r[..|r| - 4], path)
  {
    if IsAudio(path) then path else BeforeLastDot(path) + ".mp3"
  }

  /** Asking again for the audio of the returned path gives that same path. */
  lemma ExtractAudioIdempotent(path: string)
    ensures ExtractAudioPath(ExtractAudioPath(path)) == ExtractAudioPath(path)
  {
    if !IsAudio(path) {
      DotMp3(BeforeLastDot(path));
    }
  }

  /** The part before the last dot of a path ending in `.mp3` is the rest of that path. */
  lemma DotMp3(b: string)
    ensures BeforeLastDot(b + ".mp3") == b
  {
    var r := b + ".mp3";
    LastIndexAt(r, '.', |b|);
  }

  /** The last occurrence is the one with no occurrence after it. */
  lemma LastIndexAt(s: string, c: char, i: nat)
    requires i < |s| && s[i] == c
    requires forall k :: i < k < |s| ==> s[k] != c
    ensures LastIndex(s, c) == Some(i)
  {
  }

  /** The two cases of the module's tests: `test.mp3` is kept, `test.mp4` becomes `test.mp3`. */
  lemma ExtractAudioExamples()
    ensures ExtractAudioPath("test.mp3") == "test.mp3"
    ensures ExtractAudioPath("test.mp4") == "test.mp3"
  {
    ExampleParts();
    ExtractAudioBareName("test", ".mp3");
    ExtractAudioBareName("test", ".mp4");
  }

  lemma ExampleParts()
    ensures "test" + ".mp3" == "test.mp3" && "test" + ".mp4" == "test.mp4"
    ensures Lower(".mp3") == ".mp3" && Lower(".mp4") == ".mp4"
    ensures ".mp3" in AudioFormats && ".mp4" !in AudioFormats
    ensures '/' !in "test" && '.' !in "test"
    ensures SuffixShaped(".mp3") && '/' !in ".mp3" && SuffixShaped(".mp4") && '/' !in ".mp4"
  {
  }

  /**
   * A file name without a directory is kept when its suffix names an audio format, ignoring
   * case, and otherwise has its suffix replaced by `.mp3`.
   */
  lemma ExtractAudioBareName(t: string, x: string)
    requires t != [] && '/' !in t && '.' !in t && SuffixShaped(x) && '/' !in x
    ensures ExtractAudioPath(t + x) == if Lower(x) in AudioFormats then t + x else t + ".mp3"
  {
    var p := t + x;
    BareName(p);
    StemOf(t, x);
    DotSplit(t, x);
  }

  /** A non-empty path without a separator is its own file name. */
  lemma BareName(p: string)
    requires p != [] && '/' !in p
    ensures Name(p) == p
  {
    assert TrimSlashes(p) == p;
    LastIndexAbsent(p, '/');
  }

  /**
   * The path the conversion evidently means to name: the input's own file name with its suffix
   * replaced by `.mp3`, in the same directory, as `Path.with_suffix` gives.
   */
  function AudioPathBeside(path: string): (r: string)
    ensures IsAudio(path) ==> r == path
    ensures !IsAudio(path) && Name(path) != [] ==>
      Parent(r) == Parent(path) && Stem(Name(r)) == Stem(Name(path)) && Suffix(Name(r)) == ".mp3"
  {
    if IsAudio(path) then path
    else if Name(path) != [] then ConvertedSameDirectory(path); Converted(path)
    else Converted(path)
  }

  /** The input's directory and stem with the suffix `.mp3`. */
  function Converted(path: string): string {
    Parent(path) + (Stem(Name(path)) + ".mp3")
  }

  /** The corrected path stays in the input's directory and keeps its stem, with suffix `.mp3`. */
  lemma ConvertedSameDirectory(path: string)
    requires Name(path) != []
    ensures Parent(Converted(path)) == Parent(path)
    ensures Stem(Name(Converted(path))) == Stem(Name(path))
    ensures Suffix(Name(Converted(path))) == ".mp3"
  {
    var t := Stem(Name(path));
    assert '/' !in t by {
      assert forall k :: 0 <= k < |t| ==> t[k] == Name(path)[k];
    }
    BesideFacts(Parent(path), t);
  }

  lemma BesideFacts(d: string, t: string)
    requires d == [] || d[|d| - 1] == '/'
    requires t != [] && '/' !in t
    ensures var r := d + (t + ".mp3"); Parent(r) == d && Stem(Name(r)) == t && Suffix(Name(r)) == ".mp3"
  {
    NameOf(d, t + ".mp3");
    StemOf(t, ".mp3");
  }

  /** A file name `t + x` has the stem `t` and the suffix `x`. */
  predicate SuffixShaped(x: string) {
    |x| >= 2 && x[0] == '.' && forall k :: 0 < k < |x| ==> x[k] != '.'
  }

  /** The name and directory of a directory part followed by a name. */
  lemma NameOf(d: string, n: string)
    requires d == [] || d[|d| - 1] == '/'
    requires n != [] && '/' !in n
    ensures Name(d + n) == n && Parent(d + n) == d
  {
    var p := d + n;
    assert p[|p| - 1] == n[|n| - 1];
    assert TrimSlashes(p) == p;
    if d == [] {
      assert p == n;
      assert LastIndex(p, '/') == None;
    } else {
      LastIndexAt(p, '/', |d| - 1);
    }
  }

  /** A non-empty stem followed by a suffix splits back into the two. */
  lemma StemOf(t: string, x: string)
    requires t != [] && SuffixShaped(x)
    ensures Stem(t + x) == t && Suffix(t + x) == x
  {
    LastIndexAt(t + x, '.', |t|);
  }

  /** Wherever the file name has a suffix, the code as written names the corrected path. */
  lemma AudioPathAgrees(path: string)
    requires Suffix(Name(path)) != [] && TrimSlashes(path) == path
    ensures ExtractAudioPath(path) == AudioPathBeside(path)
  {
    ConvertAgrees(path);
  }

  lemma ConvertAgrees(path: string)
    requires Suffix(Name(path)) != [] && TrimSlashes(path) == path
    ensures BeforeLastDot(path) + ".mp3" == Converted(path)
  {
    var d, t, x := Parent(path), Stem(Name(path)), Suffix(Name(path));
    PathParts(path);
    assert SuffixShaped(x);
    DotSplit(d + t, x);
    Assoc(d, t, ".mp3", t + ".mp3", d + (t + ".mp3"));
  }

  /** A path without trailing separators is its directory, its stem and its suffix. */
  lemma PathParts(path: string)
    ensures TrimSlashes(path) == (Parent(path) + Stem(Name(path))) + Suffix(Name(path))
  {
    Assoc(Parent(path), Stem(Name(path)), Suffix(Name(path)), Name(path), TrimSlashes(path));
  }

  lemma Assoc(d: string, t: string, x: string, n: string, p: string)
    requires d + n == p && t + x == n
    ensures p == (d + t) + x
  {
  }

  /** The last dot before a suffix is the suffix's own. */
  lemma DotSplit(b: string, x: string)
    requires SuffixShaped(x)
    ensures BeforeLastDot(b + x) == b
  {
    var p := b + x;
    assert forall k :: |b| < k < |p| ==> p[k] == x[k - |b|];
    LastIndexAt(p, '.', |b|);
  }

  /** A dot in a directory name and none in the file name: the audio is named after the directory. */
  lemma ExtractAudioLeavesDirectory()
    ensures ExtractAudioPath("notes.d/lecture") == "notes.mp3"
    ensures AudioPathBeside("notes.d/lecture") == "notes.d/lecture.mp3"
  {
    DirectoryDot("notes", ".d/", "lecture");
    NotesParts();
  }

  lemma NotesParts()
    ensures "notes" + ".d/" + "lecture" == "notes.d/lecture"
    ensures "notes" + ".mp3" == "notes.mp3"
    ensures "notes" + ".d/" + "lecture" + ".mp3" == "notes.d/lecture.mp3"
  {
  }

  /**
   * Whenever the last dot of a path lies in its directory part, the code as written cuts the
   * path there, while the corrected path keeps the whole input and appends `.mp3`.
   */
  lemma DirectoryDot(b: string, x: string, n: string)
    requires SuffixShaped(x) && x[|x| - 1] == '/'
    requires n != [] && '/' !in n && '.' !in n
    ensures ExtractAudioPath(b + x + n) == b + ".mp3"
    ensures AudioPathBeside(b + x + n) == b + x + n + ".mp3"
  {
    var p := b + x + n;
    NameOf(b + x, n);
    NoDotName(n);
    NoDotNotAudio(p, n);
    LastDotAt(b, x, n);
    ConcatAssoc(b + x, n, ".mp3");
  }

  /** A path whose file name has no dot is not an audio file. */
  lemma NoDotNotAudio(p: string, n: string)
    requires Name(p) == n && '.' !in n
    ensures !IsAudio(p)
  {
    NoDotName(n);
    EmptyNotAudio(Lower(Suffix(n)));
  }

  /** Every audio extension is non-empty. */
  lemma EmptyNotAudio(x: string)
    requires |x| == 0
    ensures x !in AudioFormats
  {
  }

  /** The last dot of `b + x + n` is the first character of `x` when no other follows it. */
  lemma LastDotAt(b: string, x: string, n: string)
    requires SuffixShaped(x) && '.' !in n
    ensures BeforeLastDot(b + x + n) == b
  {
    var p := b + x + n;
    forall k | |b| < k < |p| ensures p[k] != '.' {
      if k < |b| + |x| {
        assert p[k] == x[k - |b|];
      } else {
        assert p[k] == n[k - |b| - |x|];
      }
    }
    LastIndexAt(p, '.', |b|);
    assert p[..|b|] == b;
  }

  /** A name without a dot has no suffix and is its own stem. */
  lemma NoDotName(n: string)
    requires '.' !in n
    ensures Suffix(n) == [] && Stem(n) == n
  {
    LastIndexAbsent(n, '.');
  }

  /** A character that does not occur has no last occurrence. */
  lemma LastIndexAbsent(s: string, c: char)
    requires c !in s
    ensures LastIndex(s, c) == None
  {
    forall k | 0 <= k < |s| ensures s[k] != c {
      assert s[k] in s;
    }
  }

  // ---------------------------------------------------------------------------------------------
  // _generate_mock_transcription
  // ---------------------------------------------------------------------------------------------

  /**
   * The topic taken from a file stem: the part after the first `_` (the upload's job id comes
   * before it), or the whole stem, with the remaining `_` turned into spaces, stripped.
   */
  function TopicOf(stem: string): (r: string)
    ensures Stripped(r) && '_' !in r
  {
    var part := match FirstIndex(stem, '_') case Some(k) => stem[k + 1..] case None => stem;
    var x := ReplaceChar(part, '_', ' ');
    ReplacedGone(part, '_', ' ');
    StripNoChar(x, '_');
    Strip(x)
  }

  lemma ReplacedGone(s: string, a: char, b: char)
    requires a != b
    ensures a !in ReplaceChar(s, a, b)
  {
    var r := ReplaceChar(s, a, b);
    forall i | 0 <= i < |r| ensures r[i] != a {
    }
  }

  /** Stripping adds no character. */
  lemma StripNoChar(x: string, c: char)
    requires c !in x
    ensures c !in Strip(x)
  {
    var r := Strip(x);
    StripIndices(x);
    forall m | 0 <= m < |r| ensures r[m] != c {
      assert r[m] == x[LeadingSpaces(x) + m];
    }
  }

  /** The topic of the mock transcription of `path`: stripped, with no `_`. */
  function MockTopic(path: string): (r: string)
    ensures Stripped(r) && '_' !in r
  {
    TopicOf(Stem(Name(path)))
  }

  /**
   * The upload route stores a file as `<dir>/<job id>_<original name>`: the mock topic is then
   * the original name without its extension, `_` read as spaces; a stripped title without `_`
   * comes back unchanged.
   */
  lemma UploadTopic(dir: string, jobId: string, title: string, ext: string)
    requires dir == [] || dir[|dir| - 1] == '/'
    requires '_' !in jobId && '/' !in jobId && '/' !in title
    requires |ext| >= 2 && ext[0] == '.' && '.' !in ext[1..] && '/' !in ext
    ensures MockTopic(dir + jobId + "_" + title + ext) == Strip(ReplaceChar(title, '_', ' '))
    ensures Stripped(title) && '_' !in title ==> MockTopic(dir + jobId + "_" + title + ext) == title
  {
    var stem := jobId + "_" + title;
    var name := stem + ext;
    assert dir + jobId + "_" + title + ext == dir + name;
    assert '/' !in name;
    NameOf(dir, name);
    assert SuffixShaped(ext) by {
      assert forall k :: 0 < k < |ext| ==> ext[k] == ext[1..][k - 1];
    }
    StemOf(stem, ext);
    JobTopic(jobId, title);
  }

  /** After a job id without `_`, the topic is the rest of the stem. */
  lemma JobTopic(jobId: string, title: string)
    requires '_' !in jobId
    ensures TopicOf(jobId + "_" + title) == Strip(ReplaceChar(title, '_', ' '))
    ensures Stripped(title) && '_' !in title ==> TopicOf(jobId + "_" + title) == title
  {
    var stem := jobId + "_" + title;
    assert stem[|jobId|] == '_';
    assert FirstIndex(stem, '_') == Some(|jobId|);
    assert stem[|jobId| + 1..] == title;
    if '_' !in title {
      assert ReplaceChar(title, '_', ' ') == title;
    }
  }

  /** `max(30, size // 50000)` seconds, or 60 when the size cannot be read. */
  function MockDuration(size: Option<nat>): (d: nat)
    ensures d >= 30
    ensures size.None? ==> d == 60
    ensures size.Some? ==> d * 50000 <= Max(size.value, 1500000) < (d + 1) * 50000
  {
    match size
    case None => 60
    case Some(n) => Max(30, n / 50000)
  }

  /** One entry of the segment table. */
  datatype TimedSegment = TimedSegment(id: nat, start: int, end: int, text: string)

  /** `int(duration * 0.8)` for a whole number of seconds (see README.md on the float). */
  function FourFifths(d: nat): nat {
    4 * d / 5
  }

  /** The six fixed segments of the mock, the last two split at four fifths of the duration. */
  function MockSegments(topic: string, d: nat): (r: seq<TimedSegment>)
    ensures |r| == 6
    ensures r[0].text == "Introduction to " + topic && r[5].end == d
  {
    var cut := FourFifths(d);
    [ TimedSegment(0, 0, 10, "Introduction to " + topic),
      TimedSegment(1, 10, 20, "Key points and overview"),
      TimedSegment(2, 20, 30, "Understanding the basics"),
      TimedSegment(3, 30, 40, "Core concepts and principles"),
      TimedSegment(4, 40, cut, "Practical applications and examples"),
      TimedSegment(5, cut, d, "Conclusion and Q&A") ]
  }

  /** The segments are numbered in order and each starts where the previous one ends. */
  predicate Contiguous(r: seq<TimedSegment>) {
    forall k :: 0 <= k < |r| ==> r[k].id == k && (k + 1 < |r| ==> r[k].end == r[k + 1].start)
  }

  /** The total of the segments' spans, `end - start` each. */
  function Covered(r: seq<TimedSegment>): int
    decreases |r|
  {
    if r == [] then 0 else (r[0].end - r[0].start) + Covered(r[1..])
  }

  /**
   * The table runs contiguously from 0 to the duration, and every segment ends no earlier than
   * it starts exactly when the duration is at least 50 seconds: below that the fifth segment
   * runs backwards.
   */
  lemma MockSegmentsTimeline(topic: string, d: nat)
    ensures var r := MockSegments(topic, d);
      Contiguous(r) && r[0].start == 0 && r[5].end == d && Covered(r) == d
    ensures (forall k :: 0 <= k < 6 ==> MockSegments(topic, d)[k].start <= MockSegments(topic, d)[k].end)
      <==> d >= 50
  {
    var r := MockSegments(topic, d);
    CoveredTelescopes(r);
    assert d < 50 ==> r[4].start > r[4].end;
  }

  /** For contiguous segments the spans add up to the distance from the first start to the last end. */
  lemma {:induction false} CoveredTelescopes(r: seq<TimedSegment>)
    requires r != [] && forall k :: 0 <= k < |r| - 1 ==> r[k].end == r[k + 1].start
    ensures Covered(r) == r[|r| - 1].end - r[0].start
    decreases |r|
  {
    if |r| > 1 {
      CoveredTelescopes(r[1..]);
    }
  }

  /** The text of the mock around each occurrence of the topic. */
  const MockTemplate: seq<string> := [
    TitlePiece,
    "\n\nIntroduction to ",
    "\n\nWelcome to today's lecture on ",
    ". This is an important topic that forms a crucial part of our curriculum. We'll explore various aspects and applications throughout this session.\n\nKey Points to Cover\n\nThe main topics we'll discuss include:\n- Fundamentals and definitions of ",
    "\n- Core concepts and principles\n- Practical applications and examples\n- Common use cases and best practices\n- Q&A and discussion\n\nUnderstanding the Basics\n\nTo begin, we need to establish a foundation of understanding what ",
    " means and why it's important. The fundamentals are crucial for progressing through this material. We'll start with the basics and gradually move towards more complex topics and implementations.\n\nCore Concepts and Principles\n\nThere are several key concepts that form the backbone of our discussion about ",
    ". Understanding these principles will help us navigate the more advanced topics. Each concept builds upon the previous one, creating a comprehensive framework for understanding.\n\nThe first principle involves understanding how ",
    " works in different contexts. Both theoretical and practical aspects are important for a complete understanding of the subject matter.\n\nPractical Applications and Examples\n\nNow that we've covered the theoretical aspects, let's look at real-world applications. These examples demonstrate how the concepts of ",
    " translate to practical scenarios and actual implementations.\n\nExample 1: Basic application of ",
    "\nExample 2: Advanced implementation strategies\nExample 3: Common challenges and solutions\n\nBest Practices and Recommendations\n\nWhen working with ",
    ", it's important to follow best practices. This ensures code quality, maintainability, and performance. We should always consider edge cases and potential issues.\n\nConclusion and Q&A\n\nThank you for your attention during this lecture on ",
    ClosingPiece
  ]

  /** The first piece of the template: the title line. */
  const TitlePiece: string := "\nLecture: "

  /** The last piece of the template: the closing question and the indentation after it. */
  const ClosingPiece: string :=
    ". We've covered the fundamentals, core concepts, practical applications, and best practices. Do you have any questions about the material we've covered "
    + "today?\n        "

  /** The pieces of `fs` with `t` between each two. */
  function Fill(fs: seq<string>, t: string): string
    decreases |fs|
  {
    if fs == [] then "" else if |fs| == 1 then fs[0] else fs[0] + t + Fill(fs[1..], t)
  }

  /** The mock text: the template with the topic filled in, stripped. */
  function MockText(topic: string): string {
    Strip(Fill(MockTemplate, topic))
  }

  /** The mock text opens with the lecture title line and closes with the closing question. */
  lemma MockTextShape(topic: string)
    ensures StartsWith(MockText(topic), "Lecture: " + topic)
    ensures IsSuffix("today?", MockText(topic))
    ensures Stripped(MockText(topic))
  {
    TemplateEnds();
    FilledShape(MockTemplate, topic);
  }

  /** The template opens with the title line and closes with the question and the indentation. */
  lemma TemplateEnds()
    ensures |MockTemplate| == 12
    ensures MockTemplate[0] == "\nLecture: "
    ensures var last := MockTemplate[11]; |last| >= 15 && last[|last| - 15..] == "today?\n        "
  {
  }

  /** Filling such a template and stripping it keeps the title line first and the question last. */
  lemma FilledShape(fs: seq<string>, topic: string)
    requires |fs| >= 2 && fs[0] == "\nLecture: "
    requires var last := fs[|fs| - 1]; |last| >= 15 && last[|last| - 15..] == "today?\n        "
    ensures StartsWith(Strip(Fill(fs, topic)), "Lecture: " + topic)
    ensures IsSuffix("today?", Strip(Fill(fs, topic)))
    ensures Stripped(Strip(Fill(fs, topic)))
  {
    FilledEnds(fs, topic);
    StripFramed(Fill(fs, topic), topic);
  }

  /** A filled template starts with its first piece and the topic, and ends like its last piece. */
  lemma FilledEnds(fs: seq<string>, topic: string)
    requires |fs| >= 2
    requires var last := fs[|fs| - 1]; |last| >= 15
    ensures var raw, last := Fill(fs, topic), fs[|fs| - 1];
      |raw| >= |fs[0]| + |topic| + 15 && raw[..|fs[0]| + |topic|] == fs[0] + topic
      && raw[|raw| - 15..] == last[|last| - 15..]
  {
    var raw := Fill(fs, topic);
    var last := fs[|fs| - 1];
    var head := fs[0] + topic;
    var rest := Fill(fs[1..], topic);
    assert raw == head + rest;
    FillEnds(fs[1..], topic);
    assert fs[1..][|fs| - 2] == last;
    assert rest[|rest| - |last|..] == last;
    assert raw[|raw| - 15..] == rest[|rest| - 15..];
  }

  /** Stripping the title line with its leading newline and the question with its indentation. */
  lemma StripFramed(raw: string, topic: string)
    requires |raw| >= 25 + |topic|
    requires raw[..10 + |topic|] == "\nLecture: " + topic
    requires raw[|raw| - 15..] == "today?\n        "
    ensures StartsWith(Strip(raw), "Lecture: " + topic)
    ensures IsSuffix("today?", Strip(raw))
    ensures Stripped(Strip(raw))
  {
    var core := raw[1..|raw| - 9];
    var pad := raw[|raw| - 9..];
    FramedParts(raw, topic, core, pad);
    StripPadded(raw[..1], core, pad);
  }

  /** The title line and the question, between a leading newline and a trailing indented newline. */
  lemma FramedParts(raw: string, topic: string, core: string, pad: string)
    requires |raw| >= 25 + |topic|
    requires raw[..10 + |topic|] == "\nLecture: " + topic
    requires raw[|raw| - 15..] == "today?\n        "
    requires core == raw[1..|raw| - 9] && pad == raw[|raw| - 9..]
    ensures raw == raw[..1] + core + pad
    ensures AllSpace(raw[..1]) && AllSpace(pad)
    ensures core != [] && Stripped(core)
    ensures StartsWith(core, "Lecture: " + topic) && IsSuffix("today?", core)
  {
    FramedPad(raw, topic, core, pad);
    FramedCore(raw, topic, core);
  }

  lemma FramedPad(raw: string, topic: string, core: string, pad: string)
    requires |raw| >= 25 + |topic|
    requires raw[..10 + |topic|] == "\nLecture: " + topic
    requires raw[|raw| - 15..] == "today?\n        "
    requires core == raw[1..|raw| - 9] && pad == raw[|raw| - 9..]
    ensures raw == raw[..1] + core + pad
    ensures AllSpace(raw[..1]) && AllSpace(pad)
  {
    assert raw == raw[..1] + core + pad;
    assert raw[..1] == "\n" by {
      assert raw[0] == raw[..10 + |topic|][0];
    }
    assert pad == "\n        " by {
      assert pad == raw[|raw| - 15..][6..];
    }
  }

  lemma FramedCore(raw: string, topic: string, core: string)
    requires |raw| >= 25 + |topic|
    requires raw[..10 + |topic|] == "\nLecture: " + topic
    requires raw[|raw| - 15..] == "today?\n        "
    requires core == raw[1..|raw| - 9]
    ensures core != [] && Stripped(core)
    ensures StartsWith(core, "Lecture: " + topic) && IsSuffix("today?", core)
  {
    assert core[..9 + |topic|] == "Lecture: " + topic by {
      assert core[..9 + |topic|] == raw[..10 + |topic|][1..];
    }
    assert core[|core| - 6..] == "today?" by {
      assert core[|core| - 6..] == raw[|raw| - 15..][..6];
    }
  }

  /** A filled template ends with the last piece. */
  lemma {:induction false} FillEnds(fs: seq<string>, t: string)
    requires fs != []
    ensures IsSuffix(fs[|fs| - 1], Fill(fs, t))
    decreases |fs|
  {
    if |fs| > 1 {
      FillEnds(fs[1..], t);
    }
  }

  /** What the mock transcription returns. */
  datatype MockTranscript = MockTranscript(text: string, segments: seq<TimedSegment>, language: string, duration: nat)

  /**
   * `_generate_mock_transcription(file_path)`, with the file's size, when it can be read, passed
   * in: the text and the first segment carry the topic named by the file.
   */
  function MockTranscription(path: string, size: Option<nat>): (r: MockTranscript)
    ensures MockShaped(r, MockTopic(path)) && r.duration >= 30
  {
    var topic, d := MockTopic(path), MockDuration(size);
    MockTextShape(topic);
    MockTranscript(MockText(topic), MockSegments(topic, d), "en", d)
  }

  /**
   * A mock transcript for `topic`: the text opens with the lecture line, six segments the first
   * of which names the topic and the last of which ends at the duration, in English.
   */
  predicate MockShaped(r: MockTranscript, topic: string) {
    && StartsWith(r.text, "Lecture: " + topic)
    && |r.segments| == 6 && r.segments[0].text == "Introduction to " + topic
    && r.segments[5].end == r.duration
    && r.language == "en"
  }
}
