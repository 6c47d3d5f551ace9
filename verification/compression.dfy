/**
 * `Summarizer._compress_sentence` (backend/modules/summarizer.py): strip, drop trailing
 * terminators, remove up to four spoken openings anchored at the start, capitalise.
 *
 * Each opening is a regular expression of the shape `^(a|b|..)\s+(c|d|..)\s+ .. <tail>`, with a
 * tail that is either `\s+` or `\s*,?\s*`, matched ignoring case. An `Opener` holds the
 * alternation groups and the tail; `MatchOpener` is the backtracking match at position 0.
 */
module Compression {
  import opened Wrappers
  import opened Strings
  import opened Cleaning

  datatype Tail = Spaces | OptionalComma

  /** Groups of lower-case alternatives separated by `\s+`, followed by the tail. */
  datatype Opener = Opener(groups: seq<seq<string>>, tail: Tail)

  const Openers: seq<Opener> := [
    Opener([["so", "well", "now", "okay", "basically", "essentially", "actually", "right"]], Spaces),
    Opener([["it is", "it's", "there is", "there are"],
            ["important", "clear", "evident", "obvious"],
            ["that", "to"]], Spaces),
    Opener([["as we know", "as we discussed", "as mentioned", "as i said", "as i mentioned"]],
           OptionalComma),
    Opener([["you know", "you see", "i think", "i believe"]], OptionalComma)
  ]

  /** The end of the tail matched at `p`: `\s+` needs at least one space, `\s*,?\s*` never fails. */
  function MatchTail(s: string, p: nat, tail: Tail): (r: Option<nat>)
    requires p <= |s|
    ensures r.Some? ==> p <= r.value <= |s|
  {
    var q := SpaceEnd(s, p);
    match tail
    case Spaces => if q > p then Some(q) else None
    case OptionalComma => if q < |s| && s[q] == ',' then Some(SpaceEnd(s, q + 1)) else Some(q)
  }

  /**
   * The end of a match, at `p`, of one of `alts` followed by the groups `rest` (each after `\s+`)
   * and the tail. Alternatives are tried in order, and a later one is tried only when the rest of
   * the pattern fails after an earlier one, as the regex engine backtracks.
   */
  function MatchAlts(s: string, p: nat, alts: seq<string>, rest: seq<seq<string>>, tail: Tail): (r: Option<nat>)
    requires p <= |s|
    ensures r.Some? ==> p <= r.value <= |s|
    decreases |rest|, |alts|
  {
    if alts == [] then None
    else
      var after := MatchAfter(s, p, alts[0], rest, tail);
      if after.Some? then after else MatchAlts(s, p, alts[1..], rest, tail)
  }

  /** The end of a match, at `p`, of the alternative `a` followed by the groups `rest` and the tail. */
  function MatchAfter(s: string, p: nat, a: string, rest: seq<seq<string>>, tail: Tail): (r: Option<nat>)
    requires p <= |s|
    ensures r.Some? ==> p <= r.value <= |s|
    decreases |rest|, 0
  {
    if p + |a| <= |s| && MatchesAt(s, p, a) then
      var q := p + |a|;
      if rest == [] then MatchTail(s, q, tail)
      else
        var q' := SpaceEnd(s, q);
        if q' > q then MatchAlts(s, q', rest[0], rest[1..], tail) else None
    else None
  }

  /** The end of the match of the opening at the start of `s`, if it matches. */
  function MatchOpener(s: string, op: Opener): (r: Option<nat>)
    ensures r.Some? ==> r.value <= |s|
  {
    if op.groups == [] then None else MatchAlts(s, 0, op.groups[0], op.groups[1..], op.tail)
  }

  // ---------------------------------------------------------------------------------------------
  // The language of an opening, stated without the matcher
  // ---------------------------------------------------------------------------------------------

  /** `u` is the text of a tail: `\s+`, or `\s*,?\s*`. */
  predicate TailText(u: string, tail: Tail) {
    match tail
    case Spaces => u != [] && AllSpace(u)
    case OptionalComma =>
      || AllSpace(u)
      || exists i :: 0 <= i < |u| && u[i] == ',' && AllSpace(u[..i]) && AllSpace(u[i + 1..])
  }

  /**
   * `u` spells, ignoring case, one alternative of each group in turn, with whitespace between
   * the groups, and then the tail.
   */
  ghost predicate GroupsText(u: string, groups: seq<seq<string>>, tail: Tail)
    decreases |groups|, 1
  {
    groups != [] && exists i :: 0 <= i < |groups[0]| && AltText(u, groups[0][i], groups[1..], tail)
  }

  /** `u` spells the alternative `a`, ignoring case, and then the groups `rest` and the tail. */
  ghost predicate AltText(u: string, a: string, rest: seq<seq<string>>, tail: Tail)
    decreases |rest| + 1, 0
  {
    && |a| <= |u| && Lower(u[..|a|]) == a
    && if rest == [] then TailText(u[|a|..], tail)
       else exists k :: |a| < k <= |u| && AllSpace(u[|a|..k]) && GroupsText(u[k..], rest, tail)
  }

  /** Alternatives that are non-empty and start with a character other than whitespace. */
  predicate WellFormedAlts(alts: seq<string>) {
    forall i :: 0 <= i < |alts| ==> alts[i] != [] && !IsSpace(alts[i][0])
  }

  predicate WellFormed(groups: seq<seq<string>>) {
    forall g :: 0 <= g < |groups| ==> WellFormedAlts(groups[g])
  }

  /** A match is a prefix in the opening's language. */
  lemma MatchOpenerSound(s: string, op: Opener)
    requires MatchOpener(s, op).Some?
    ensures GroupsText(s[..MatchOpener(s, op).value], op.groups, op.tail)
  {
    var n := MatchOpener(s, op).value;
    MatchAltsSound(s, 0, op.groups[0], op.groups[1..], op.tail);
    assert s[0..n] == s[..n];
  }

  /** An opening with well-formed alternatives matches whenever a prefix is in its language. */
  lemma MatchOpenerComplete(s: string, n: nat, op: Opener)
    requires n <= |s| && WellFormed(op.groups)
    requires GroupsText(s[..n], op.groups, op.tail)
    ensures MatchOpener(s, op).Some?
  {
    assert s[0..n] == s[..n];
    var i :| 0 <= i < |op.groups[0]| && AltText(s[0..n], op.groups[0][i], op.groups[1..], op.tail);
    assert WellFormedAlts(op.groups[0]);
    RestWellFormed(op.groups);
    MatchAltsComplete(s, 0, n, op.groups[0], op.groups[1..], op.tail);
  }

  /** A one-group opening matches a sentence that starts with one of its words and a space. */
  lemma MatchOpenerLeading(s: string, op: Opener, i: nat, x: string, rest: string)
    requires |op.groups| == 1 && WellFormed(op.groups) && i < |op.groups[0]|
    requires Lower(x) == op.groups[0][i] && s == x + " " + rest
    ensures MatchOpener(s, op).Some?
  {
    var a, n := op.groups[0][i], |x| + 1;
    var u := s[..n];
    assert u[..|a|] == x;
    assert u[|a|..] == " ";
    assert AllSpace(" ");
    assert AltText(u, a, op.groups[1..], op.tail);
    MatchOpenerComplete(s, n, op);
  }

  /**
   * Where a match ends: the regex's `\s+` and `\s*` are greedy, so no whitespace follows the
   * match, and `,?` is greedy, so a comma right after the match means one was already taken.
   */
  lemma MatchOpenerGreedyEnd(s: string, op: Opener)
    requires MatchOpener(s, op).Some?
    ensures var n := MatchOpener(s, op).value;
      && (n == |s| || !IsSpace(s[n]))
      && (op.tail.OptionalComma? && (forall k :: 0 <= k < n ==> s[k] != ',') ==> n == |s| || s[n] != ',')
  {
    MatchAltsGreedy(s, 0, op.groups[0], op.groups[1..], op.tail);
  }

  /** A match from `p` to `n` ends greedily: no whitespace next, nor a comma the tail could take. */
  predicate GreedyEnd(s: string, p: nat, n: nat, tail: Tail)
    requires p <= n <= |s|
  {
    && (n == |s| || !IsSpace(s[n]))
    && (tail.OptionalComma? && (forall k :: p <= k < n ==> s[k] != ',') ==> n == |s| || s[n] != ',')
  }

  lemma MatchTailGreedy(s: string, p: nat, tail: Tail)
    requires p <= |s| && MatchTail(s, p, tail).Some?
    ensures GreedyEnd(s, p, MatchTail(s, p, tail).value, tail)
  {
    var q := SpaceEnd(s, p);
    if tail.OptionalComma? && q < |s| && s[q] == ',' {
      assert p <= q < MatchTail(s, p, tail).value;
    }
  }

  lemma {:induction false} MatchAltsGreedy(s: string, p: nat, alts: seq<string>, rest: seq<seq<string>>, tail: Tail)
    requires p <= |s| && MatchAlts(s, p, alts, rest, tail).Some?
    ensures GreedyEnd(s, p, MatchAlts(s, p, alts, rest, tail).value, tail)
    decreases |rest|, |alts|
  {
    if MatchAfter(s, p, alts[0], rest, tail).Some? {
      MatchAfterGreedy(s, p, alts[0], rest, tail);
    } else {
      MatchAltsGreedy(s, p, alts[1..], rest, tail);
    }
  }

  lemma {:induction false} MatchAfterGreedy(s: string, p: nat, a: string, rest: seq<seq<string>>, tail: Tail)
    requires p <= |s| && MatchAfter(s, p, a, rest, tail).Some?
    ensures GreedyEnd(s, p, MatchAfter(s, p, a, rest, tail).value, tail)
    decreases |rest|, 0
  {
    if rest == [] {
      MatchTailGreedy(s, p + |a|, tail);
    } else {
      MatchAltsGreedy(s, SpaceEnd(s, p + |a|), rest[0], rest[1..], tail);
    }
  }

  /** Alternatives that all fail at the start leave the rest of the pattern untried. */
  lemma {:induction false} NoAltNoMatch(s: string, alts: seq<string>, rest: seq<seq<string>>, tail: Tail)
    requires forall i :: 0 <= i < |alts| ==> !(|alts[i]| <= |s| && MatchesAt(s, 0, alts[i]))
    ensures MatchAlts(s, 0, alts, rest, tail).None?
    decreases |alts|
  {
    if alts != [] {
      NoAltNoMatch(s, alts[1..], rest, tail);
    }
  }

  /** The four openings have well-formed alternatives. */
  lemma OpenersWellFormed()
    ensures forall k :: 0 <= k < |Openers| ==> WellFormed(Openers[k].groups)
  {
  }

  lemma RestWellFormed(groups: seq<seq<string>>)
    requires groups != [] && WellFormed(groups)
    ensures WellFormed(groups[1..])
  {
    forall g | 0 <= g < |groups| - 1 ensures WellFormedAlts(groups[1..][g]) {
      assert groups[1..][g] == groups[g + 1];
    }
  }

  lemma {:induction false} MatchAltsSound(s: string, p: nat, alts: seq<string>, rest: seq<seq<string>>, tail: Tail)
    requires p <= |s| && MatchAlts(s, p, alts, rest, tail).Some?
    ensures exists i :: 0 <= i < |alts| && AltText(s[p..MatchAlts(s, p, alts, rest, tail).value], alts[i], rest, tail)
    decreases |rest|, |alts|
  {
    var q := MatchAlts(s, p, alts, rest, tail).value;
    if MatchAfter(s, p, alts[0], rest, tail).Some? {
      MatchAfterSound(s, p, alts[0], rest, tail);
      assert AltText(s[p..q], alts[0], rest, tail);
    } else {
      MatchAltsSound(s, p, alts[1..], rest, tail);
      var i :| 0 <= i < |alts| - 1 && AltText(s[p..q], alts[1..][i], rest, tail);
      assert alts[1..][i] == alts[i + 1];
    }
  }

  lemma {:induction false} MatchAfterSound(s: string, p: nat, a: string, rest: seq<seq<string>>, tail: Tail)
    requires p <= |s| && MatchAfter(s, p, a, rest, tail).Some?
    ensures AltText(s[p..MatchAfter(s, p, a, rest, tail).value], a, rest, tail)
    decreases |rest|, 0
  {
    var r := MatchAfter(s, p, a, rest, tail).value;
    MatchesAtLower(s, p, a);
    if rest == [] {
      MatchTailSound(s, p + |a|, tail);
      AfterTailSound(s, p, r, a, tail);
    } else {
      var q' := SpaceEnd(s, p + |a|);
      MatchAltsSound(s, q', rest[0], rest[1..], tail);
      var i :| 0 <= i < |rest[0]| && AltText(s[q'..r], rest[0][i], rest[1..], tail);
      AfterGroupsSound(s, p, q', r, a, rest, tail, i);
    }
  }

  lemma AfterTailSound(s: string, p: nat, r: nat, a: string, tail: Tail)
    requires p + |a| <= r <= |s| && Lower(s[p..p + |a|]) == a
    requires TailText(s[p + |a|..r], tail)
    ensures AltText(s[p..r], a, [], tail)
  {
    var u := s[p..r];
    assert u[..|a|] == s[p..p + |a|];
    assert u[|a|..] == s[p + |a|..r];
  }

  lemma AfterGroupsSound(s: string, p: nat, q: nat, r: nat, a: string, rest: seq<seq<string>>, tail: Tail, i: nat)
    requires p + |a| < q <= r <= |s| && Lower(s[p..p + |a|]) == a
    requires forall m :: p + |a| <= m < q ==> IsSpace(s[m])
    requires rest != [] && i < |rest[0]| && AltText(s[q..r], rest[0][i], rest[1..], tail)
    ensures AltText(s[p..r], a, rest, tail)
  {
    var u, e, k := s[p..r], p + |a|, q - p;
    assert u[..|a|] == s[p..e];
    assert u[k..] == s[q..r];
    assert GroupsText(u[k..], rest, tail);
    assert AllSpace(u[|a|..k]) by {
      assert forall m :: 0 <= m < k - |a| ==> u[|a|..k][m] == s[e + m];
    }
  }

  lemma MatchTailSound(s: string, e: nat, tail: Tail)
    requires e <= |s| && MatchTail(s, e, tail).Some?
    ensures TailText(s[e..MatchTail(s, e, tail).value], tail)
  {
    var q, r := SpaceEnd(s, e), MatchTail(s, e, tail).value;
    if tail.OptionalComma? && q < |s| && s[q] == ',' {
      CommaTailText(s, e, q, r);
    } else {
      SpaceTailText(s, e, r, tail);
    }
  }

  /** Whitespace, a comma and whitespace spell the tail `\s*,?\s*`. */
  lemma CommaTailText(s: string, e: nat, q: nat, r: nat)
    requires e <= q < r <= |s| && s[q] == ','
    requires forall k :: e <= k < q ==> IsSpace(s[k])
    requires forall k :: q < k < r ==> IsSpace(s[k])
    ensures TailText(s[e..r], OptionalComma)
  {
    var u, i := s[e..r], q - e;
    assert u[i] == ',';
    assert u[..i] == s[e..q];
    assert u[i + 1..] == s[q + 1..r];
  }

  /** Whitespace spells either tail, provided there is some for `\s+`. */
  lemma SpaceTailText(s: string, e: nat, r: nat, tail: Tail)
    requires e <= r <= |s| && (tail.Spaces? ==> e < r)
    requires forall k :: e <= k < r ==> IsSpace(s[k])
    ensures TailText(s[e..r], tail)
  {
    var u := s[e..r];
    assert forall m :: 0 <= m < |u| ==> u[m] == s[e + m];
  }

  /** `MatchesAt` compares, ignoring case, with the characters at `p`. */
  lemma {:induction false} MatchesAtLower(s: string, p: nat, a: string)
    requires p + |a| <= |s|
    ensures MatchesAt(s, p, a) <==> Lower(s[p..p + |a|]) == a
    decreases |a|
  {
    if a != [] {
      MatchesAtLower(s, p + 1, a[1..]);
      var l, l' := Lower(s[p..p + |a|]), Lower(s[p + 1..p + |a|]);
      assert l[0] == LowerChar(s[p]);
      assert l[1..] == l' by {
        assert forall m :: 0 <= m < |l'| ==> l[1..][m] == l'[m];
      }
      assert l == [l[0]] + l[1..];
      assert a == [a[0]] + a[1..];
    }
  }

  lemma {:induction false} MatchAltsComplete(s: string, p: nat, q: nat, alts: seq<string>, rest: seq<seq<string>>, tail: Tail)
    requires p <= q <= |s| && WellFormedAlts(alts) && WellFormed(rest)
    requires exists i :: 0 <= i < |alts| && AltText(s[p..q], alts[i], rest, tail)
    ensures MatchAlts(s, p, alts, rest, tail).Some?
    decreases |rest|, |alts|
  {
    var i :| 0 <= i < |alts| && AltText(s[p..q], alts[i], rest, tail);
    if i == 0 {
      MatchAfterComplete(s, p, q, alts[0], rest, tail);
    } else {
      assert alts[1..][i - 1] == alts[i];
      MatchAltsComplete(s, p, q, alts[1..], rest, tail);
    }
  }

  lemma {:induction false} MatchAfterComplete(s: string, p: nat, q: nat, a: string, rest: seq<seq<string>>, tail: Tail)
    requires p <= q <= |s| && WellFormed(rest)
    requires AltText(s[p..q], a, rest, tail)
    ensures MatchAfter(s, p, a, rest, tail).Some?
    decreases |rest|, 0
  {
    var u, e := s[p..q], p + |a|;
    assert u[..|a|] == s[p..e];
    MatchesAtLower(s, p, a);
    if rest == [] {
      if tail.Spaces? {
        assert IsSpace(s[e]) by {
          assert u[|a|..][0] == s[e];
        }
      }
    } else {
      var k :| |a| < k <= |u| && AllSpace(u[|a|..k]) && GroupsText(u[k..], rest, tail);
      NextGroupAt(s, p, q, e, k, rest, tail);
      assert u[k..] == s[p + k..q];
      RestWellFormed(rest);
      MatchAltsComplete(s, p + k, q, rest[0], rest[1..], tail);
    }
  }

  /** The whitespace before the next group ends where that group's first alternative begins. */
  lemma NextGroupAt(s: string, p: nat, q: nat, e: nat, k: nat, rest: seq<seq<string>>, tail: Tail)
    requires p <= e < p + k <= q <= |s| && WellFormed(rest)
    requires AllSpace(s[p..q][e - p..k]) && GroupsText(s[p..q][k..], rest, tail)
    ensures SpaceEnd(s, e) == p + k
  {
    var u := s[p..q];
    var j :| 0 <= j < |rest[0]| && AltText(u[k..], rest[0][j], rest[1..], tail);
    assert WellFormedAlts(rest[0]);
    var b := rest[0][j];
    assert !IsSpace(s[p + k]) by {
      assert u[k..][..|b|][0] == s[p + k];
      assert Lower(u[k..][..|b|])[0] == b[0];
      NotSpaceLower(s[p + k], b[0]);
    }
    assert forall m :: e <= m < p + k ==> IsSpace(s[m]) by {
      assert forall m :: e <= m < p + k ==> s[m] == u[e - p..k][m - e];
    }
    SpaceEndAt(s, e, p + k);
  }

  lemma NotSpaceLower(c: char, d: char)
    requires LowerChar(c) == d && !IsSpace(d)
    ensures !IsSpace(c)
  {
  }

  lemma SpaceEndAt(s: string, i: nat, m: nat)
    requires i <= m <= |s|
    requires forall k :: i <= k < m ==> IsSpace(s[k])
    requires m < |s| ==> !IsSpace(s[m])
    ensures SpaceEnd(s, i) == m
  {
  }

  /** `re.sub(pattern, '', s, flags=re.IGNORECASE).strip()` for an anchored opening. */
  function RemoveOpener(s: string, op: Opener): (r: string)
    ensures Stripped(r) && |r| <= |s|
    ensures Infix(r, s)
  {
    var m := MatchOpener(s, op);
    var t := if m.Some? then s[m.value..] else s;
    InfixOfSuffix(t, s, |s| - |t|);
    InfixStrip(t);
    InfixTrans(Strip(t), t, s);
    Strip(t)
  }

  /** The openings applied one after another, each once. */
  function RemoveOpeners(s: string, ops: seq<Opener>): (r: string)
    ensures |r| <= |s|
    ensures Infix(r, s)
    ensures ops != [] ==> Stripped(r)
    decreases |ops|
  {
    if ops == [] then InfixSelf(s); s
    else
      var t := RemoveOpener(s, ops[0]);
      var r := RemoveOpeners(t, ops[1..]);
      InfixTrans(r, t, s);
      r
  }

  /** `s.rstrip('.!?')` */
  function RStripTerminals(s: string): (r: string)
    ensures IsPrefix(r, s)
    ensures r == [] || !IsTerminal(r[|r| - 1])
    ensures forall k :: |r| <= k < |s| ==> IsTerminal(s[k])
    decreases |s|
  {
    if s != [] && IsTerminal(s[|s| - 1]) then RStripTerminals(s[..|s| - 1]) else s
  }

  /** `s[0].upper() + s[1:]` for a non-empty `s`. */
  function Capitalize(s: string): (r: string)
    ensures |r| == |s|
    ensures r != [] ==> r[0] == UpperChar(s[0]) && r[1..] == s[1..]
  {
    if s == [] then s else [UpperChar(s[0])] + s[1..]
  }

  /** `_compress_sentence(sentence)` */
  function CompressSentence(sentence: string): (r: string)
    ensures Stripped(r) && |r| <= |sentence|
    ensures exists t :: Infix(t, sentence) && r == Capitalize(t)
    ensures |Split(r)| <= |Split(sentence)|
  {
    CompressWith(sentence, Openers)
  }

  /** The compression with the openings `ops` in place of the four above. */
  function CompressWith(sentence: string, ops: seq<Opener>): (r: string)
    ensures ops != [] ==> Stripped(r)
    ensures |r| <= |sentence|
    ensures exists t :: Infix(t, sentence) && r == Capitalize(t)
    ensures |Split(r)| <= |Split(sentence)|
  {
    var s := RStripTerminals(Strip(sentence));
    var t := RemoveOpeners(s, ops);
    CompressFacts(sentence, s, t);
    Capitalize(t)
  }

  lemma CompressFacts(sentence: string, s: string, t: string)
    requires s == RStripTerminals(Strip(sentence))
    requires Infix(t, s)
    ensures Infix(t, sentence) && |Capitalize(t)| <= |sentence|
    ensures Stripped(t) ==> Stripped(Capitalize(t))
    ensures |Split(Capitalize(t))| <= |Split(sentence)|
  {
    InfixStrip(sentence);
    InfixOfPrefix(s, Strip(sentence));
    InfixTrans(s, Strip(sentence), sentence);
    InfixTrans(t, s, sentence);
    if Stripped(t) {
      CapitalizeStripped(t);
    }
    SplitInfixCount(t, sentence);
    CapitalizeWords(t);
  }

  /**
   * What survives compression is the sentence, stripped and without its trailing terminators,
   * less a prefix and trailing whitespace.
   */
  lemma CompressKeepsTail(sentence: string)
    ensures exists t :: && Stripped(t) && TailOf(t, RStripTerminals(Strip(sentence)))
                        && CompressSentence(sentence) == Capitalize(t)
  {
    var s := RStripTerminals(Strip(sentence));
    RemoveOpenersTail(s, Openers);
    assert Stripped(RemoveOpeners(s, Openers));
  }

  /** `t` ends `s` but for trailing whitespace. */
  predicate TailAt(t: string, s: string, i: nat) {
    InfixAt(t, s, i) && AllSpace(s[i + |t|..])
  }

  ghost predicate TailOf(t: string, s: string) {
    exists i: nat :: TailAt(t, s, i)
  }

  /** Each opening removes a prefix, and stripping removes the trailing whitespace. */
  lemma {:induction false} RemoveOpenersTail(s: string, ops: seq<Opener>)
    ensures TailOf(RemoveOpeners(s, ops), s)
    decreases |ops|
  {
    if ops == [] {
      TailSelf(s);
    } else {
      var t := RemoveOpener(s, ops[0]);
      RemoveOpenerTail(s, ops[0]);
      RemoveOpenersTail(t, ops[1..]);
      TailTrans(RemoveOpeners(t, ops[1..]), t, s);
    }
  }

  lemma TailSelf(s: string)
    ensures TailOf(s, s)
  {
    assert s[..|s|] == s;
    assert TailAt(s, s, 0);
  }

  lemma RemoveOpenerTail(s: string, op: Opener)
    ensures TailOf(RemoveOpener(s, op), s)
  {
    var m := MatchOpener(s, op);
    var t := if m.Some? then s[m.value..] else s;
    var n := |s| - |t|;
    assert forall x :: 0 <= x < |t| ==> t[x] == s[n + x];
    StripTail(t);
    TailShift(Strip(t), t, s, n, LeadingSpaces(t));
  }

  /** Stripping leaves a tail of the input. */
  lemma StripTail(t: string)
    ensures TailAt(Strip(t), t, LeadingSpaces(t))
  {
    var i, r := LeadingSpaces(t), Strip(t);
    if |r| == |t| {
      assert t[i..i + |r|] == t;
    }
  }

  /** A tail of a suffix `t` of `s`, cut at `n`, is a tail of `s`. */
  lemma TailShift(r: string, t: string, s: string, n: nat, i: nat)
    requires n + |t| == |s| && forall x :: 0 <= x < |t| ==> t[x] == s[n + x]
    requires TailAt(r, t, i)
    ensures TailAt(r, s, n + i)
  {
    assert forall x :: 0 <= x < |r| ==> r[x] == t[i..i + |r|][x] == t[i + x];
    assert s[n + i..n + i + |r|] == r;
    var e := i + |r|;
    var a, b := s[n + e..], t[e..];
    assert forall x :: 0 <= x < |a| ==> a[x] == b[x];
  }

  lemma TailTrans(a: string, b: string, c: string)
    requires TailOf(a, b) && TailOf(b, c)
    ensures TailOf(a, c)
  {
    var i: nat :| TailAt(a, b, i);
    var j: nat :| TailAt(b, c, j);
    forall k | 0 <= k < |a| ensures c[j + i + k] == a[k] {
      assert c[j..j + |b|][i + k] == b[i + k];
      assert b[i..i + |a|][k] == a[k];
    }
    forall k | j + i + |a| <= k < |c| ensures IsSpace(c[k]) {
      if k < j + |b| {
        assert c[j..j + |b|][k - j] == b[k - j];
        assert b[i + |a|..][k - j - i - |a|] == b[k - j];
      } else {
        assert c[j + |b|..][k - j - |b|] == c[k];
      }
    }
    assert InfixAt(a, c, j + i);
    assert TailAt(a, c, j + i);
  }

  /** Upper-casing the first character keeps a string stripped. */
  lemma CapitalizeStripped(t: string)
    requires Stripped(t)
    ensures Stripped(Capitalize(t))
  {
    if t != [] {
      assert !IsSpace(t[0]);
      UpperKeepsSpace(t[0]);
    }
  }

  lemma CapitalizeWords(t: string)
    ensures |Split(Capitalize(t))| == |Split(t)|
  {
    if t != [] {
      forall k | 0 <= k < |t| ensures IsSpace(Capitalize(t)[k]) <==> IsSpace(t[k]) {
        if k == 0 {
          UpperKeepsSpace(t[0]);
        }
      }
      SplitSamePattern(Capitalize(t), t);
    }
  }

  lemma UpperKeepsSpace(c: char)
    ensures IsSpace(UpperChar(c)) <==> IsSpace(c)
  {
  }

  /** Without a trailing terminator or an opening to remove, a sentence is only capitalised. */
  lemma CompressPlain(x: string)
    requires Stripped(x)
    requires x == [] || !IsTerminal(x[|x| - 1])
    requires forall k :: 0 <= k < |Openers| ==> MatchOpener(x, Openers[k]).None?
    ensures CompressSentence(x) == Capitalize(x)
  {
    CompressWithPlain(x, Openers);
  }

  lemma CompressWithPlain(x: string, ops: seq<Opener>)
    requires Stripped(x)
    requires x == [] || !IsTerminal(x[|x| - 1])
    requires forall k :: 0 <= k < |ops| ==> MatchOpener(x, ops[k]).None?
    ensures CompressWith(x, ops) == Capitalize(x)
  {
    assert RStripTerminals(Strip(x)) == x by {
      StrippedFixed(x);
      NoTerminalFixed(x);
    }
    assert RemoveOpeners(x, ops) == x by {
      RemoveOpenersNone(x, ops);
    }
  }

  lemma NoTerminalFixed(x: string)
    requires x == [] || !IsTerminal(x[|x| - 1])
    ensures RStripTerminals(x) == x
  {
  }

  /** Openings that do not match leave a stripped string as it is. */
  lemma {:induction false} RemoveOpenersNone(s: string, ops: seq<Opener>)
    requires Stripped(s)
    requires forall k :: 0 <= k < |ops| ==> MatchOpener(s, ops[k]).None?
    ensures RemoveOpeners(s, ops) == s
    decreases |ops|
  {
    if ops != [] {
      RemoveOpenerNone(s, ops[0]);
      var rest := ops[1..];
      assert forall k :: 0 <= k < |rest| ==> rest[k] == ops[k + 1];
      RemoveOpenersNone(s, rest);
      assert RemoveOpeners(s, ops) == RemoveOpeners(RemoveOpener(s, ops[0]), rest);
    }
  }

  /** An opening that does not match leaves a stripped string as it is. */
  lemma RemoveOpenerNone(s: string, op: Opener)
    requires Stripped(s) && MatchOpener(s, op).None?
    ensures RemoveOpener(s, op) == s
  {
    StrippedFixed(s);
  }

  /** No alternative can match where the first letter of none of them stands. */
  lemma {:induction false} MatchAltsFirstChar(s: string, p: nat, alts: seq<string>, rest: seq<seq<string>>, tail: Tail)
    requires p < |s|
    requires forall k :: 0 <= k < |alts| ==> alts[k] != [] && alts[k][0] != LowerChar(s[p])
    ensures MatchAlts(s, p, alts, rest, tail) == None
    decreases |alts|
  {
    if alts != [] {
      assert !MatchesAt(s, p, alts[0]);
      assert forall k :: 0 <= k < |alts| - 1 ==> alts[1..][k] == alts[k + 1];
      MatchAltsFirstChar(s, p, alts[1..], rest, tail);
    }
  }

  /** Each opening is removed once: a repeated "so" survives the first pass. */
  lemma CompressRepeatedOpener()
    ensures CompressSentence("so so it works.") == "So it works"
  {
    var x := "so so it works.";
    var s := "so so it works";
    DropPeriod(x, s);
    RemoveRepeatedSo(s);
    CapitalizeSo();
  }

  lemma CapitalizeSo()
    ensures Capitalize("so it works") == "So it works"
  {
    var t := "so it works";
    assert UpperChar('s') == 'S';
    assert [UpperChar(t[0])] + t[1..] == "S" + "o it works";
  }

  lemma DropPeriod(x: string, s: string)
    requires s == "so so it works" && x == s + "."
    ensures RStripTerminals(Strip(x)) == s
  {
    assert Strip(x) == x;
    assert x[..|x| - 1] == s;
    assert RStripTerminals(s) == s;
  }

  lemma RemoveRepeatedSo(s: string)
    requires s == "so so it works"
    ensures RemoveOpeners(s, Openers) == "so it works"
  {
    var t := "so it works";
    SoParts(s, t);
    DropPrefix("so ", t);
    FirstOpenerSo(s);
    assert RemoveOpener(s, Openers[0]) == Strip(t);
    NoLaterOpener(t);
  }

  lemma SoParts(s: string, t: string)
    requires s == "so so it works" && t == "so it works"
    ensures s == "so " + t && |"so "| == 3 && Stripped(t) && Strip(t) == t
  {
  }

  lemma DropPrefix(a: string, b: string)
    ensures (a + b)[|a|..] == b
  {
  }

  lemma NoLaterOpener(t: string)
    requires t == "so it works"
    ensures RemoveOpeners(t, Openers[1..]) == t
  {
    forall k | 1 <= k < |Openers| ensures MatchOpener(t, Openers[k]).None? {
      var op := Openers[k];
      MatchAltsFirstChar(t, 0, op.groups[0], op.groups[1..], op.tail);
    }
    var later := Openers[1..];
    assert forall k :: 0 <= k < |later| ==> later[k] == Openers[k + 1];
    RemoveOpenersNone(t, later);
  }

  lemma FirstOpenerSo(s: string)
    requires s == "so so it works"
    ensures MatchOpener(s, Openers[0]) == Some(3)
  {
    assert MatchesAt(s, 0, "so") by {
      assert MatchesAt(s, 2, "");
      assert MatchesAt(s, 1, "o");
    }
    assert SpaceEnd(s, 2) == 3 by {
      assert SpaceEnd(s, 3) == 3;
    }
    assert MatchAfter(s, 0, "so", [], Spaces) == Some(3);
    var op := Openers[0];
    assert op.groups[0][0] == "so" && op.groups[1..] == [] && op.tail == Spaces;
    assert MatchAlts(s, 0, op.groups[0], [], Spaces) == Some(3);
  }
}
