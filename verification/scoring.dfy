/**
 * `Summarizer._score_sentence` (backend/modules/summarizer.py). Every increment of the score is a
 * multiple of one half, so scores are kept as whole numbers of half-points; `ScoreReal` is the
 * formula as written, over the reals, and `ScoreIsHalfPoints` relates the two.
 */
module Scoring {
  import opened Strings
  import opened Seqs

  const ImportanceMarkers: seq<string> := [
    "important", "key", "significant", "essential", "crucial", "main",
    "fundamental", "primary", "critical", "core", "basic", "definition",
    "defined", "means", "refers", "called", "known", "example", "such as",
    "for instance", "therefore", "thus", "hence", "conclusion", "result",
    "because", "reason", "purpose", "advantage", "disadvantage", "benefit",
    "feature", "property", "characteristic", "method", "technique", "process",
    "step", "rule", "principle", "concept", "type", "types", "category"
  ]

  /** How many of the markers `ms` occur somewhere in `lower`; each counts once. */
  function MarkerHits(lower: string, ms: seq<string>): (n: nat)
    ensures n <= |ms|
    decreases |ms|
  {
    if ms == [] then 0 else (if Contains(lower, ms[0]) then 1 else 0) + MarkerHits(lower, ms[1..])
  }

  /** `sum(word_freq[w] for w in words if w in word_freq)`, where `word_freq = Counter(table)`. */
  function FreqSum(words: seq<string>, table: seq<string>): nat
    decreases |words|
  {
    if words == [] then 0 else Count(table, words[0]) + FreqSum(words[1..], table)
  }

  /** The length bonus in half-points: 2.0 for 8 to 30 words, else 1.0 for 5 to 40 words. */
  function LengthBonus(wc: nat): nat {
    if 8 <= wc <= 30 then 4 else if 5 <= wc <= 40 then 2 else 0
  }

  /**
   * The position bonus in half-points for sentence `i` of `n`, whose position is
   * `i / max(n, 1)`: 1.5 below 0.2, else 1.0 above 0.9.
   */
  function PositionBonus(i: nat, n: nat): nat {
    var m := Max(n, 1);
    if 5 * i < m then 3 else if 10 * i > 9 * m then 2 else 0
  }

  /** The score, in half-points, of sentence `i` of `n` against the counted words `table`. */
  function ScoreWith(sentence: string, table: seq<string>, i: nat, n: nat, ms: seq<string>): int {
    var lower := Lower(sentence);
    var words := Split(lower);
    var wc := |words|;
    if wc < 4 then 0
    else
      (if wc > 50 then -2 else 0)
      + FreqSum(words, table)
      + 4 * MarkerHits(lower, ms)
      + LengthBonus(wc)
      + PositionBonus(i, n)
      + (if HasDigit(sentence) then 1 else 0)
  }

  /** `_score_sentence(sentence, Counter(table), i / max(n, 1))`, in half-points. */
  function Score(sentence: string, table: seq<string>, i: nat, n: nat): int {
    ScoreWith(sentence, table, i, n, ImportanceMarkers)
  }

  // ---------------------------------------------------------------------------------------------
  // The formula as written, over the reals
  // ---------------------------------------------------------------------------------------------

  function FreqSumReal(words: seq<string>, table: seq<string>): real
    decreases |words|
  {
    if words == [] then 0.0
    else
      (if Count(table, words[0]) > 0 then Count(table, words[0]) as real * 0.5 else 0.0)
      + FreqSumReal(words[1..], table)
  }

  function MarkerScoreReal(lower: string, ms: seq<string>): real
    decreases |ms|
  {
    if ms == [] then 0.0
    else (if Contains(lower, ms[0]) then 2.0 else 0.0) + MarkerScoreReal(lower, ms[1..])
  }

  function ScoreReal(sentence: string, table: seq<string>, position: real, ms: seq<string>): real {
    var lower := Lower(sentence);
    var words := Split(lower);
    var wc := |words|;
    if wc < 4 then 0.0
    else
      var base := if wc > 50 then -1.0 else 0.0;
      var length := if 8 <= wc <= 30 then 2.0 else if 5 <= wc <= 40 then 1.0 else 0.0;
      var place := if position < 0.2 then 1.5 else if position > 0.9 then 1.0 else 0.0;
      var digit := if HasDigit(sentence) then 0.5 else 0.0;
      base + FreqSumReal(words, table) + MarkerScoreReal(lower, ms) + length + place + digit
  }

  lemma {:induction false} FreqSumHalves(words: seq<string>, table: seq<string>)
    ensures FreqSum(words, table) as real == 2.0 * FreqSumReal(words, table)
    decreases |words|
  {
    if words != [] {
      FreqSumHalves(words[1..], table);
    }
  }

  lemma {:induction false} MarkerHalves(lower: string, ms: seq<string>)
    ensures (4 * MarkerHits(lower, ms)) as real == 2.0 * MarkerScoreReal(lower, ms)
    decreases |ms|
  {
    if ms != [] {
      MarkerHalves(lower, ms[1..]);
    }
  }

  /** The rational thresholds on `i / m` are the integer comparisons used by `PositionBonus`. */
  lemma PositionThresholds(i: nat, m: nat)
    requires m > 0
    ensures (i as real) / (m as real) < 0.2 <==> 5 * i < m
    ensures (i as real) / (m as real) > 0.9 <==> 10 * i > 9 * m
  {
    DivCompare(i as real, m as real, 0.2);
    DivCompare(i as real, m as real, 0.9);
  }

  lemma DivCompare(a: real, b: real, c: real)
    requires b > 0.0
    ensures a / b < c <==> a < c * b
    ensures a / b > c <==> a > c * b
  {
    var q := a / b;
    assert q * b == a;
    assert q < c ==> q * b < c * b;
    assert q > c ==> q * b > c * b;
    assert q >= c ==> q * b >= c * b;
    assert q <= c ==> q * b <= c * b;
  }

  /**
   * The half-point score is exactly twice the score of the formula as written, with the
   * position taken as `i / max(n, 1)`.
   */
  lemma ScoreIsHalfPoints(sentence: string, table: seq<string>, i: nat, n: nat, ms: seq<string>)
    ensures ScoreWith(sentence, table, i, n, ms) as real
      == 2.0 * ScoreReal(sentence, table, (i as real) / (Max(n, 1) as real), ms)
  {
    var lower := Lower(sentence);
    FreqSumHalves(Split(lower), table);
    MarkerHalves(lower, ms);
    PositionThresholds(i, Max(n, 1));
  }

  /** Sentences of fewer than four words score nothing; longer ones never score below -1.0. */
  lemma ScoreBounds(sentence: string, table: seq<string>, i: nat, n: nat)
    ensures |Split(Lower(sentence))| < 4 ==> Score(sentence, table, i, n) == 0
    ensures Score(sentence, table, i, n) >= -2
    ensures |Split(Lower(sentence))| <= 50 ==> Score(sentence, table, i, n) >= 0
  {
  }

  /** Every marker that occurs adds the same 2.0: a sentence holding more markers scores more. */
  lemma {:induction false} MarkerHitsCount(lower: string, ms: seq<string>)
    ensures MarkerHits(lower, ms) == |MarkersIn(lower, ms)|
    decreases |ms|
  {
    if ms != [] {
      MarkerHitsCount(lower, ms[1..]);
    }
  }

  /** The markers of `ms` that occur in `lower`, in list order. */
  function MarkersIn(lower: string, ms: seq<string>): (r: seq<string>)
    ensures forall k :: 0 <= k < |r| ==> r[k] in ms && Contains(lower, r[k])
    ensures forall k :: 0 <= k < |ms| && Contains(lower, ms[k]) ==> ms[k] in r
    decreases |ms|
  {
    if ms == [] then []
    else
      var rest := MarkersIn(lower, ms[1..]);
      assert forall w :: w in ms[1..] ==> w in ms;
      assert forall k :: 1 <= k < |ms| ==> ms[k] == ms[1..][k - 1];
      (if Contains(lower, ms[0]) then [ms[0]] else []) + rest
  }
}
