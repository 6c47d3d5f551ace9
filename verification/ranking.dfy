/**
 * Python's stable `sorted(range(n), key=lambda i: scores[i], reverse=True)`: indices in
 * descending order of score, ties kept in increasing index order.
 */
module Ranking {
  import opened Seqs

  /** Index `a` comes before index `b` in a stable descending sort by score. */
  predicate Precedes(scores: seq<int>, a: nat, b: nat)
    requires a < |scores| && b < |scores|
  {
    scores[a] > scores[b] || (scores[a] == scores[b] && a < b)
  }

  predicate InBounds(scores: seq<int>, r: seq<nat>) {
    forall k :: 0 <= k < |r| ==> r[k] < |scores|
  }

  /** `r` lists indices of `scores` in stable descending order of score. */
  predicate Ranked(scores: seq<int>, r: seq<nat>) {
    InBounds(scores, r) &&
    forall p, q :: 0 <= p < q < |r| ==> Precedes(scores, r[p], r[q])
  }

  /** Inserts a new index into its place in a ranked sequence. */
  function Insert(scores: seq<int>, x: nat, r: seq<nat>): (r': seq<nat>)
    requires x < |scores| && Ranked(scores, r) && x !in r
    ensures Ranked(scores, r')
    ensures |r'| == |r| + 1
    ensures forall y :: y in r' <==> y in r || y == x
    decreases |r|
  {
    if r == [] then [x]
    else if Precedes(scores, x, r[0]) then [x] + r
    else
      var rest := Insert(scores, x, r[1..]);
      var r' := [r[0]] + rest;
      assert forall y :: y in rest ==> y in r || y == x;
      assert Precedes(scores, r[0], x);
      forall p, q | 0 <= p < q < |r'| ensures Precedes(scores, r'[p], r'[q]) {
        assert r'[q] == rest[q - 1];
        assert rest[q - 1] in rest;
        if p == 0 && rest[q - 1] != x {
          var m :| 0 <= m < |r[1..]| && r[1..][m] == rest[q - 1];
          assert r[m + 1] == rest[q - 1];
        } else if p > 0 {
          assert r'[p] == rest[p - 1];
        }
      }
      r'
  }

  /** The ranking of the indices `0 .. n-1`. */
  function RankPrefix(scores: seq<int>, n: nat): (r: seq<nat>)
    requires n <= |scores|
    ensures Ranked(scores, r)
    ensures |r| == n
    ensures forall i: nat :: i in r <==> i < n
  {
    if n == 0 then [] else Insert(scores, n - 1, RankPrefix(scores, n - 1))
  }

  /** All indices of `scores`, best first. */
  function Rank(scores: seq<int>): (r: seq<nat>)
    ensures Ranked(scores, r)
    ensures |r| == |scores|
    ensures forall i: nat :: i in r <==> i < |scores|
  {
    RankPrefix(scores, |scores|)
  }

  /** A ranked sequence never repeats an index. */
  lemma RankedDistinct(scores: seq<int>, r: seq<nat>)
    requires Ranked(scores, r)
    ensures Distinct(r)
  {
  }

  /** The stable order is unique: two rankings of the same indices are equal. */
  lemma {:induction false} RankedUnique(scores: seq<int>, a: seq<nat>, b: seq<nat>)
    requires Ranked(scores, a) && Ranked(scores, b)
    requires forall i :: i in a <==> i in b
    ensures a == b
    decreases |a|
  {
    HeadIsMember(b);
    if a != [] {
      assert a[0] in b;
      assert b[0] in b;
      var p :| 0 <= p < |a| && a[p] == b[0];
      var q :| 0 <= q < |b| && b[q] == a[0];
      assert a[0] == b[0];
      forall i ensures i in a[1..] <==> i in b[1..] {
        if i in a[1..] {
          var k :| 0 <= k < |a[1..]| && a[1..][k] == i;
          assert a[k + 1] != a[0] && a[k + 1] in a;
          var m :| 0 <= m < |b| && b[m] == i;
          assert m != 0;
          assert b[1..][m - 1] == i;
        }
        if i in b[1..] {
          var k :| 0 <= k < |b[1..]| && b[1..][k] == i;
          assert b[k + 1] != b[0] && b[k + 1] in b;
          var m :| 0 <= m < |a| && a[m] == i;
          assert m != 0;
          assert a[1..][m - 1] == i;
        }
      }
      RankedUnique(scores, a[1..], b[1..]);
    }
  }

  /** The `k` best indices, put back in increasing index order. */
  function TopInOrder(scores: seq<int>, k: int): (r: seq<nat>)
    ensures StrictlyIncreasing(r)
    ensures forall i: nat :: i in r <==> i in Take(Rank(scores), k)
  {
    var top := Take(Rank(scores), k);
    Ascending(top, |scores|)
  }

  /** The members of `chosen` below `n`, in increasing order. */
  function Ascending(chosen: seq<nat>, n: nat): (r: seq<nat>)
    ensures StrictlyIncreasing(r)
    ensures forall i: nat :: i in r <==> i < n && i in chosen
  {
    if n == 0 then []
    else
      var prev := Ascending(chosen, n - 1);
      assert forall k :: 0 <= k < |prev| ==> prev[k] in prev;
      prev + (if n - 1 in chosen then [n - 1] else [])
  }

  /**
   * The top-`k` selection is exact: it has `min(k, n)` indices, and every chosen index
   * outranks every index left out.
   */
  lemma TopBeatsRest(scores: seq<int>, k: nat, i: nat, j: nat)
    requires i in TopInOrder(scores, k)
    requires j < |scores| && j !in TopInOrder(scores, k)
    ensures i < |scores| && Precedes(scores, i, j)
  {
    TakeBeatsRest(scores, k, i, j);
  }

  /** Every index among the first `k` of the ranking outranks every index after them. */
  lemma TakeBeatsRest(scores: seq<int>, k: int, i: nat, j: nat)
    requires i in Take(Rank(scores), k)
    requires j < |scores| && j !in Take(Rank(scores), k)
    ensures i < |scores| && Precedes(scores, i, j)
  {
    var rank := Rank(scores);
    var top := Take(rank, k);
    var p :| 0 <= p < |top| && top[p] == i;
    assert j in rank;
    var q :| 0 <= q < |rank| && rank[q] == j;
    assert rank[p] == i;
    assert Precedes(scores, rank[p], rank[q]);
  }

  lemma TopSize(scores: seq<int>, k: nat)
    ensures |TopInOrder(scores, k)| == Min(k, |scores|)
  {
    var top := Take(Rank(scores), k);
    var r := TopInOrder(scores, k);
    RankedDistinct(scores, Rank(scores));
    StrictlyIncreasingDistinct(r);
    DistinctSameElements(r, top);
  }

  lemma StrictlyIncreasingDistinct(xs: seq<nat>)
    requires StrictlyIncreasing(xs)
    ensures Distinct(xs)
  {
  }

  /** Two duplicate-free sequences with the same members have the same length. */
  lemma {:induction false} DistinctSameElements(a: seq<nat>, b: seq<nat>)
    requires Distinct(a) && Distinct(b)
    requires forall i :: i in a <==> i in b
    ensures |a| == |b|
    decreases |a|
  {
    HeadIsMember(b);
    if a != [] {
      var x := a[0];
      assert x in b;
      var q :| 0 <= q < |b| && b[q] == x;
      var a', b' := a[1..], b[..q] + b[q + 1..];
      RemoveAt(a, 0);
      assert a[..0] + a[1..] == a';
      RemoveAt(b, q);
      forall i ensures i in a' <==> i in b' {
        assert i in a' <==> i in a && i != x;
        assert i in b' <==> i in b && i != x;
      }
      DistinctSameElements(a', b');
    }
  }

  /** Removing one item from a duplicate-free sequence removes exactly that member. */
  lemma RemoveAt(b: seq<nat>, q: nat)
    requires Distinct(b) && q < |b|
    ensures Distinct(b[..q] + b[q + 1..])
    ensures forall i :: i in b[..q] + b[q + 1..] <==> i in b && i != b[q]
  {
    var b' := b[..q] + b[q + 1..];
    forall i ensures i in b' <==> i in b && i != b[q] {
      if i in b' {
        var m :| 0 <= m < |b'| && b'[m] == i;
        if m < q { assert b[m] == i; } else { assert b[m + 1] == i; }
      }
      if i in b && i != b[q] {
        var m :| 0 <= m < |b| && b[m] == i;
        if m < q { assert b'[m] == i; } else { assert b'[m - 1] == i; }
      }
    }
    forall u, v | 0 <= u < v < |b'| ensures b'[u] != b'[v] {
      var u' := if u < q then u else u + 1;
      var v' := if v < q then v else v + 1;
      assert b'[u] == b[u'] && b'[v] == b[v'];
    }
  }
}
