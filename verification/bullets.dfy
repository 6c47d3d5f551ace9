/**
 * `Summarizer.extract_bullet_points` (backend/modules/summarizer.py): the sentences of at least
 * four words, best score first, each compressed, cut to 18 words, kept when its first five words
 * are new, and closed with a terminator, until `num_points` are collected.
 */
module Bullets {
  import opened Wrappers
  import opened Strings
  import opened Seqs
  import opened Ranking
  import opened Scoring
  import opened Compression
  import opened Summarizer

  /** The compression of a candidate as the loop keeps it: none under four words, else at most 18. */
  function Shape(s: string): (r: Option<string>)
    ensures r.Some? ==> 4 <= |Split(r.value)| <= 18 && Stripped(r.value)
  {
    var c := CompressSentence(s);
    ShapeWords(c);
    var ws := Split(c);
    if c == [] || |ws| < 4 then None
    else if |ws| > 18 then Some(Join(Take(ws, 18), " "))
    else Some(c)
  }

  /** Cutting a text to its first 18 words gives 18 words, stripped. */
  lemma ShapeWords(c: string)
    ensures |Split(c)| > 18 ==>
      |Split(Join(Take(Split(c), 18), " "))| == 18 && Stripped(Join(Take(Split(c), 18), " "))
  {
    var ws := Take(Split(c), 18);
    assert forall k :: 0 <= k < |ws| ==> IsWord(ws[k]);
    SplitJoin(ws);
    JoinWordsStripped(ws);
  }

  /** `if not s.endswith(('.', '!', '?')): s += '.'` */
  function CloseSentence(s: string): (r: string)
    ensures r != [] && IsTerminal(r[|r| - 1])
    ensures IsPrefix(s, r) && |r| <= |s| + 1
  {
    if s != [] && IsTerminal(s[|s| - 1]) then s else s + "."
  }

  /** Closing a stripped text keeps its number of words. */
  lemma CloseSentenceWords(s: string)
    requires s != [] && Stripped(s)
    ensures |Split(CloseSentence(s))| == |Split(s)|
  {
    if !IsTerminal(s[|s| - 1]) {
      AppendCharWords(s, '.');
    }
  }

  /** The shape of every candidate, in order. */
  function ShapeAll(cands: seq<string>): (r: seq<Option<string>>)
    ensures |r| == |cands| && forall k :: 0 <= k < |cands| ==> r[k] == Shape(cands[k])
  {
    seq(|cands|, k requires 0 <= k < |cands| => Shape(cands[k]))
  }

  /** Every shape present has 4 to 18 words and is stripped. */
  predicate WellShaped(opts: seq<Option<string>>) {
    forall k :: 0 <= k < |opts| && opts[k].Some? ==>
      4 <= |Split(opts[k].value)| <= 18 && Stripped(opts[k].value)
  }

  lemma ShapeAllWellShaped(cands: seq<string>)
    ensures WellShaped(ShapeAll(cands))
  {
  }

  /** The shapes present, in order. */
  function Shapes(opts: seq<Option<string>>): (r: seq<string>)
    decreases |opts|
  {
    if opts == [] then []
    else
      match opts[0]
      case None => Shapes(opts[1..])
      case Some(c) => [c] + Shapes(opts[1..])
  }

  function CloseAll(xs: seq<string>): (r: seq<string>)
    ensures |r| == |xs|
    ensures forall k :: 0 <= k < |xs| ==> r[k] == CloseSentence(xs[k])
  {
    seq(|xs|, k requires 0 <= k < |xs| => CloseSentence(xs[k]))
  }

  /**
   * The loop over the ranked candidates with the keys in `seen` met already and `room` points
   * still wanted; `key` is the near-duplicate key, `PrefixKey` in `ExtractBulletPoints`. The count
   * is checked only after a point is added, so a `room` of one or less still lets one point through.
   */
  function PointsFrom(opts: seq<Option<string>>, key: string -> string, seen: set<string>, room: int): (r: seq<string>)
    decreases |opts|
  {
    if opts == [] then []
    else
      match opts[0]
      case None => PointsFrom(opts[1..], key, seen, room)
      case Some(c) =>
        if key(c) in seen then PointsFrom(opts[1..], key, seen, room)
        else [CloseSentence(c)] + (if room <= 1 then [] else PointsFrom(opts[1..], key, seen + {key(c)}, room - 1))
  }

  /**
   * The loop computes: the shaped candidates, with near-duplicates by their key removed, the
   * first `max(room, 1)` of them, each closed with a terminator.
   */
  lemma {:induction false} PointsFromReference(opts: seq<Option<string>>, key: string -> string, seen: set<string>, room: int)
    ensures PointsFrom(opts, key, seen, room) == CloseAll(Take(Dedupe(Shapes(opts), key, seen), Max(room, 1)))
    decreases |opts|
  {
    if opts != [] {
      var rest := opts[1..];
      match opts[0]
      case None =>
        PointsFromReference(rest, key, seen, room);
        ReferenceSkip(opts, key, seen, room);
      case Some(c) =>
        if key(c) in seen {
          PointsFromReference(rest, key, seen, room);
          ReferenceSkip(opts, key, seen, room);
        } else {
          if room > 1 {
            PointsFromReference(rest, key, seen + {key(c)}, room - 1);
          }
          ReferenceKeep(opts, key, seen, room, c);
        }
    }
  }

  /** A candidate without a shape, or with a key met already, adds no point. */
  lemma ReferenceSkip(opts: seq<Option<string>>, key: string -> string, seen: set<string>, room: int)
    requires opts != [] && (opts[0].None? || key(opts[0].value) in seen)
    requires PointsFrom(opts[1..], key, seen, room) == CloseAll(Take(Dedupe(Shapes(opts[1..]), key, seen), Max(room, 1)))
    ensures PointsFrom(opts, key, seen, room) == CloseAll(Take(Dedupe(Shapes(opts), key, seen), Max(room, 1)))
  {
    var rest := opts[1..];
    match opts[0]
    case None =>
      assert Shapes(opts) == Shapes(rest);
    case Some(c) =>
      assert Shapes(opts) == [c] + Shapes(rest);
      DedupeConsSeen(c, Shapes(rest), key, seen);
  }

  /** A shaped candidate with a new key is the next point. */
  lemma ReferenceKeep(opts: seq<Option<string>>, key: string -> string, seen: set<string>, room: int, c: string)
    requires opts != [] && opts[0] == Some(c) && key(c) !in seen
    requires room > 1 ==>
      PointsFrom(opts[1..], key, seen + {key(c)}, room - 1)
        == CloseAll(Take(Dedupe(Shapes(opts[1..]), key, seen + {key(c)}), Max(room - 1, 1)))
    ensures PointsFrom(opts, key, seen, room) == CloseAll(Take(Dedupe(Shapes(opts), key, seen), Max(room, 1)))
  {
    var rest := opts[1..];
    assert Shapes(opts) == [c] + Shapes(rest);
    var d := Dedupe(Shapes(rest), key, seen + {key(c)});
    DedupeConsNew(c, Shapes(rest), key, seen);
    if room <= 1 {
      FirstPoint(c, d, room);
    } else {
      NextPoints(c, d, room, PointsFrom(rest, key, seen + {key(c)}, room - 1));
    }
  }

  lemma FirstPoint(c: string, d: seq<string>, room: int)
    requires room <= 1
    ensures [CloseSentence(c)] == CloseAll(Take([c] + d, Max(room, 1)))
  {
    assert Take([c] + d, 1) == [c];
  }

  lemma NextPoints(c: string, d: seq<string>, room: int, tail: seq<string>)
    requires room > 1 && tail == CloseAll(Take(d, Max(room - 1, 1)))
    ensures [CloseSentence(c)] + tail == CloseAll(Take([c] + d, Max(room, 1)))
  {
    assert Take([c] + d, room) == [c] + Take(d, room - 1);
    CloseAllCons(c, Take(d, room - 1));
  }

  lemma CloseAllCons(c: string, xs: seq<string>)
    ensures CloseAll([c] + xs) == [CloseSentence(c)] + CloseAll(xs)
  {
  }

  /** Points of 4 to 18 words, each ending with a terminator. */
  predicate GoodPoints(r: seq<string>) {
    forall k :: 0 <= k < |r| ==> 4 <= |Split(r[k])| <= 18 && IsTerminal(r[k][|r[k]| - 1])
  }

  /** Every point has 4 to 18 words and ends with a terminator; there are at most `max(room, 1)`. */
  lemma PointsShape(opts: seq<Option<string>>, key: string -> string, seen: set<string>, room: int)
    requires WellShaped(opts)
    ensures |PointsFrom(opts, key, seen, room)| <= Max(room, 1)
    ensures GoodPoints(PointsFrom(opts, key, seen, room))
  {
    PointsCount(opts, key, seen, room);
    PointsGood(opts, key, seen, room);
  }

  lemma {:induction false} PointsCount(opts: seq<Option<string>>, key: string -> string, seen: set<string>, room: int)
    ensures |PointsFrom(opts, key, seen, room)| <= Max(room, 1)
    decreases |opts|
  {
    if opts != [] {
      var rest := opts[1..];
      match opts[0]
      case None =>
        PointsCount(rest, key, seen, room);
      case Some(c) =>
        if key(c) in seen {
          PointsCount(rest, key, seen, room);
        } else if room > 1 {
          PointsCount(rest, key, seen + {key(c)}, room - 1);
        }
    }
  }

  lemma {:induction false} PointsGood(opts: seq<Option<string>>, key: string -> string, seen: set<string>, room: int)
    requires WellShaped(opts)
    ensures GoodPoints(PointsFrom(opts, key, seen, room))
    decreases |opts|
  {
    if opts != [] {
      var rest := opts[1..];
      WellShapedTail(opts);
      match opts[0]
      case None =>
        PointsGood(rest, key, seen, room);
      case Some(c) =>
        if key(c) in seen {
          PointsGood(rest, key, seen, room);
        } else {
          if room > 1 {
            PointsGood(rest, key, seen + {key(c)}, room - 1);
          }
          PointsGoodKeep(opts, key, seen, room, c);
        }
    }
  }

  lemma PointsGoodKeep(opts: seq<Option<string>>, key: string -> string, seen: set<string>, room: int, c: string)
    requires opts != [] && opts[0] == Some(c) && key(c) !in seen
    requires 4 <= |Split(c)| <= 18 && Stripped(c)
    requires room > 1 ==> GoodPoints(PointsFrom(opts[1..], key, seen + {key(c)}, room - 1))
    ensures GoodPoints(PointsFrom(opts, key, seen, room))
  {
    var tail := if room <= 1 then [] else PointsFrom(opts[1..], key, seen + {key(c)}, room - 1);
    ConsPoint(c, tail);
    assert PointsFrom(opts, key, seen, room) == [CloseSentence(c)] + tail;
  }

  /** The tail of well-shaped options is well shaped, and so is the head when present. */
  lemma WellShapedTail(opts: seq<Option<string>>)
    requires opts != [] && WellShaped(opts)
    ensures WellShaped(opts[1..])
    ensures opts[0].Some? ==> 4 <= |Split(opts[0].value)| <= 18 && Stripped(opts[0].value)
  {
    var rest := opts[1..];
    forall k | 0 <= k < |rest| ensures rest[k] == opts[k + 1] {
    }
  }

  lemma ConsPoint(c: string, tail: seq<string>)
    requires 4 <= |Split(c)| <= 18 && Stripped(c)
    requires GoodPoints(tail)
    ensures GoodPoints([CloseSentence(c)] + tail)
  {
    CloseSentenceWords(c);
    var r := [CloseSentence(c)] + tail;
    forall k | 1 <= k < |r| ensures r[k] == tail[k - 1] {
    }
  }

  // ---------------------------------------------------------------------------------------------
  // extract_bullet_points
  // ---------------------------------------------------------------------------------------------

  /** The indices below `n` of the sentences of at least four words, in increasing order. */
  function Eligible(ss: seq<string>, n: nat): (r: seq<nat>)
    requires n <= |ss|
    ensures StrictlyIncreasing(r)
    ensures forall i: nat :: i in r <==> i < n && |Split(ss[i])| >= 4
    ensures forall k :: 0 <= k < |r| ==> r[k] < n
  {
    if n == 0 then []
    else
      var prev := Eligible(ss, n - 1);
      prev + (if |Split(ss[n - 1])| >= 4 then [n - 1] else [])
  }

  /** The eligible sentences, best score first: the order of the `scored` list after sorting. */
  function Candidates(text: string): (r: seq<string>)
  {
    var ss := SummarySentences(text);
    var table := TableWords(Split(text), {}, 3);
    var elig := Eligible(ss, |ss|);
    var scores := seq(|elig|, k requires 0 <= k < |elig| => Score(ss[elig[k]], table, elig[k], |ss|));
    var order := Rank(scores);
    RankBounds(scores);
    Select(Select(ss, elig), order)
  }

  lemma RankBounds(scores: seq<int>)
    ensures forall k :: 0 <= k < |Rank(scores)| ==> Rank(scores)[k] < |scores|
  {
    var r := Rank(scores);
    forall k | 0 <= k < |r| ensures r[k] < |scores| {
      assert r[k] in r;
    }
  }

  /** `extract_bullet_points(text, num_points)` */
  function ExtractBulletPoints(text: string, numPoints: int): (r: seq<string>)
    ensures SummarySentences(text) != [] ==>
      r == CloseAll(Take(Dedupe(Shapes(ShapeAll(Candidates(text))), PrefixKey, {}), Max(numPoints, 1)))
  {
    if SummarySentences(text) == [] then []
    else
      var opts := ShapeAll(Candidates(text));
      PointsFromReference(opts, PrefixKey, {}, numPoints);
      PointsFrom(opts, PrefixKey, {}, numPoints)
  }

  /**
   * The points are the distinct (by their first five words) shaped candidates, best first, at
   * most `max(num_points, 1)` of them, each closed with a terminator; a text without words gives
   * none.
   */
  lemma BulletPoints(text: string, numPoints: int)
    ensures |ExtractBulletPoints(text, numPoints)| <= Max(numPoints, 1)
    ensures Split(text) == [] ==> ExtractBulletPoints(text, numPoints) == []
    ensures GoodPoints(ExtractBulletPoints(text, numPoints))
  {
    SentencesEmpty(text);
    if SummarySentences(text) != [] {
      ShapeAllWellShaped(Candidates(text));
      PointsShape(ShapeAll(Candidates(text)), PrefixKey, {}, numPoints);
    }
  }

  /** The forms behind the points never share their first five words. */
  lemma BulletKeysDistinct(text: string, numPoints: int)
    requires SummarySentences(text) != []
    ensures var forms := Take(Dedupe(Shapes(ShapeAll(Candidates(text))), PrefixKey, {}), Max(numPoints, 1));
      ExtractBulletPoints(text, numPoints) == CloseAll(forms) &&
      forall p, q :: 0 <= p < q < |forms| ==> PrefixKey(forms[p]) != PrefixKey(forms[q])
  {
    var opts := ShapeAll(Candidates(text));
    assert ExtractBulletPoints(text, numPoints) == PointsFrom(opts, PrefixKey, {}, numPoints);
    PointsFromReference(opts, PrefixKey, {}, numPoints);
    TakeDedupeDistinct(Shapes(opts), PrefixKey, {}, Max(numPoints, 1));
  }

  /** The split yields no sentence exactly when the text has no word. */
  lemma SentencesEmpty(text: string)
    ensures SummarySentences(text) == [] <==> Split(text) == []
  {
    SentenceWords(text);
    var ss := SummarySentences(text);
    if ss != [] {
      assert IsSentence(ss[0]);
      StrippedHasWord(ss[0]);
      assert Flatten(SplitEach(ss)) == Split(ss[0]) + Flatten(SplitEach(ss)[1..]);
    }
  }

  /** A non-empty stripped text has a word. */
  lemma StrippedHasWord(s: string)
    requires s != [] && Stripped(s)
    ensures Split(s) != []
  {
    assert !IsSpace(s[0]);
  }
}
