/** Generic sequence helpers: Python slicing, counting, first occurrences and de-duplication. */
module Seqs {

  function Min(a: int, b: int): int { if a <= b then a else b }
  function Max(a: int, b: int): int { if a >= b then a else b }

  /** Python's `s[:n]`, including the negative-`n` case that counts from the end. */
  function Take<T>(s: seq<T>, n: int): (r: seq<T>)
    ensures n >= 0 ==> |r| == Min(n, |s|)
    ensures n < 0 ==> |r| == Max(|s| + n, 0)
    ensures r == s[..|r|]
  {
    if n >= 0 then s[..Min(n, |s|)] else s[..Max(|s| + n, 0)]
  }

  /** `xs.count(x)` */
  function Count<T(==)>(xs: seq<T>, x: T): (n: nat)
    ensures n > 0 <==> x in xs
    ensures n <= |xs|
    decreases |xs|
  {
    if xs == [] then 0 else (if xs[0] == x then 1 else 0) + Count(xs[1..], x)
  }

  /** `xs.index(x)`: the position of the first occurrence. */
  function IndexOf<T(==)>(xs: seq<T>, x: T): (i: nat)
    requires x in xs
    ensures i < |xs| && xs[i] == x
    ensures forall j :: 0 <= j < i ==> xs[j] != x
    decreases |xs|
  {
    if xs[0] == x then 0 else 1 + IndexOf(xs[1..], x)
  }

  /** A non-empty sequence is its head followed by its tail. */
  lemma HeadTail<T>(s: seq<T>, x: T, rest: seq<T>)
    requires s != [] && x == s[0] && rest == s[1..]
    ensures s == [x] + rest
  {
  }

  /** A non-empty sequence has a member; used where the emptiness of a sequence is the goal. */
  lemma HeadIsMember<T>(s: seq<T>)
    ensures s != [] ==> s[0] in s
  {
  }

  predicate Distinct<T(==)>(xs: seq<T>) {
    forall i, j :: 0 <= i < j < |xs| ==> xs[i] != xs[j]
  }

  predicate StrictlyIncreasing(xs: seq<nat>) {
    forall i, j :: 0 <= i < j < |xs| ==> xs[i] < xs[j]
  }

  /** The concatenation of a sequence of sequences. */
  function Flatten<T>(xss: seq<seq<T>>): seq<T>
    decreases |xss|
  {
    if xss == [] then [] else xss[0] + Flatten(xss[1..])
  }

  lemma FlattenAppend<T>(xss: seq<seq<T>>, yss: seq<seq<T>>)
    ensures Flatten(xss + yss) == Flatten(xss) + Flatten(yss)
    decreases |xss|
  {
    if xss != [] {
      assert (xss + yss)[0] == xss[0];
      assert (xss + yss)[1..] == xss[1..] + yss;
      FlattenAppend(xss[1..], yss);
    } else {
      assert xss + yss == yss;
    }
  }

  /** The elements of `xs` at the given positions, in the order given. */
  function Select<T>(xs: seq<T>, idx: seq<nat>): (r: seq<T>)
    requires forall k :: 0 <= k < |idx| ==> idx[k] < |xs|
    ensures |r| == |idx|
    ensures forall k :: 0 <= k < |idx| ==> r[k] == xs[idx[k]]
  {
    seq(|idx|, k requires 0 <= k < |idx| => xs[idx[k]])
  }

  /** Some element of `xs` has key `kk`. */
  predicate HasKey<T, K(==)>(xs: seq<T>, key: T -> K, kk: K)
    decreases |xs|
  {
    xs != [] && (key(xs[0]) == kk || HasKey(xs[1..], key, kk))
  }

  /** The position of the first element of `xs` whose key is `kk`. */
  function FirstWithKey<T, K(==)>(xs: seq<T>, key: T -> K, kk: K): (i: nat)
    requires HasKey(xs, key, kk)
    ensures i < |xs| && key(xs[i]) == kk
    ensures forall j :: 0 <= j < i ==> key(xs[j]) != kk
    decreases |xs|
  {
    if key(xs[0]) == kk then 0 else 1 + FirstWithKey(xs[1..], key, kk)
  }

  lemma HasKeyAt<T, K>(xs: seq<T>, key: T -> K, i: nat)
    requires i < |xs|
    ensures HasKey(xs, key, key(xs[i]))
    decreases i
  {
    if i > 0 {
      HasKeyAt(xs[1..], key, i - 1);
    }
  }

  /**
   * Keeps the first element for each key not already in `seen`, in order: the loop
   * `for s in xs: if key(s) not in seen: seen.add(key(s)); out.append(s)`.
   */
  function Dedupe<T, K(==)>(xs: seq<T>, key: T -> K, seen: set<K>): (r: seq<T>)
    ensures |r| <= |xs|
    ensures forall k :: 0 <= k < |r| ==> key(r[k]) !in seen
    ensures forall p, q :: 0 <= p < q < |r| ==> key(r[p]) != key(r[q])
    decreases |xs|
  {
    if xs == [] then []
    else if key(xs[0]) in seen then Dedupe(xs[1..], key, seen)
    else [xs[0]] + Dedupe(xs[1..], key, seen + {key(xs[0])})
  }

  /** With nothing seen yet, the first element is always kept. */
  lemma DedupeKeepsHead<T, K>(xs: seq<T>, key: T -> K)
    requires xs != []
    ensures var r := Dedupe(xs, key, {}); r != [] && r[0] == xs[0]
  {
    assert xs == [xs[0]] + xs[1..];
    DedupeConsNew(xs[0], xs[1..], key, {});
  }

  /** One step of `Dedupe` on an element with a new key. */
  lemma DedupeConsNew<T, K>(x: T, xs: seq<T>, key: T -> K, seen: set<K>)
    requires key(x) !in seen
    ensures Dedupe([x] + xs, key, seen) == [x] + Dedupe(xs, key, seen + {key(x)})
  {
    assert ([x] + xs)[1..] == xs;
  }

  /** One step of `Dedupe` on an element whose key was met already. */
  lemma DedupeConsSeen<T, K>(x: T, xs: seq<T>, key: T -> K, seen: set<K>)
    requires key(x) in seen
    ensures Dedupe([x] + xs, key, seen) == Dedupe(xs, key, seen)
  {
    assert ([x] + xs)[1..] == xs;
  }

  /** The first `n` elements kept by `Dedupe` still carry distinct keys. */
  lemma TakeDedupeDistinct<T, K>(xs: seq<T>, key: T -> K, seen: set<K>, n: int)
    ensures var r := Take(Dedupe(xs, key, seen), n);
      forall p, q :: 0 <= p < q < |r| ==> key(r[p]) != key(r[q])
  {
    var d := Dedupe(xs, key, seen);
    var r := Take(d, n);
    forall p, q | 0 <= p < q < |r| ensures key(r[p]) != key(r[q]) {
      assert r[p] == d[p] && r[q] == d[q];
    }
  }

  /** Every element of `r` is the first element of `xs` carrying its key. */
  ghost predicate FirstOccurrences<T, K>(xs: seq<T>, key: T -> K, r: seq<T>) {
    forall k :: 0 <= k < |r| ==>
      HasKey(xs, key, key(r[k])) && r[k] == xs[FirstWithKey(xs, key, key(r[k]))]
  }

  /** The elements of `r` appear in the order of their first occurrences in `xs`. */
  ghost predicate InFirstOccurrenceOrder<T, K>(xs: seq<T>, key: T -> K, r: seq<T>) {
    forall p, q :: 0 <= p < q < |r| ==>
      HasKey(xs, key, key(r[p])) && HasKey(xs, key, key(r[q])) &&
      FirstWithKey(xs, key, key(r[p])) < FirstWithKey(xs, key, key(r[q]))
  }

  /** Prepending an element with a new key shifts every first occurrence by one. */
  lemma FirstWithKeyCons<T, K>(xs: seq<T>, key: T -> K, kk: K)
    requires xs != [] && key(xs[0]) != kk && HasKey(xs[1..], key, kk)
    ensures HasKey(xs, key, kk)
    ensures FirstWithKey(xs, key, kk) == 1 + FirstWithKey(xs[1..], key, kk)
    ensures xs[FirstWithKey(xs, key, kk)] == xs[1..][FirstWithKey(xs[1..], key, kk)]
  {
  }

  /** Every element kept is the first element of `xs` carrying its key. */
  lemma {:induction false} DedupeKeepsFirst<T, K>(xs: seq<T>, key: T -> K, seen: set<K>)
    ensures FirstOccurrences(xs, key, Dedupe(xs, key, seen))
    decreases |xs|
  {
    if xs != [] {
      var x := xs[0];
      var r := Dedupe(xs, key, seen);
      if key(x) in seen {
        var rest := Dedupe(xs[1..], key, seen);
        assert r == rest;
        DedupeKeepsFirst(xs[1..], key, seen);
        forall k | 0 <= k < |r|
          ensures HasKey(xs, key, key(r[k])) && r[k] == xs[FirstWithKey(xs, key, key(r[k]))]
        {
          FirstWithKeyCons(xs, key, key(rest[k]));
        }
      } else {
        var rest := Dedupe(xs[1..], key, seen + {key(x)});
        assert r == [x] + rest;
        DedupeKeepsFirst(xs[1..], key, seen + {key(x)});
        forall k | 0 <= k < |r|
          ensures HasKey(xs, key, key(r[k])) && r[k] == xs[FirstWithKey(xs, key, key(r[k]))]
        {
          if k > 0 {
            assert r[k] == rest[k - 1];
            FirstWithKeyCons(xs, key, key(rest[k - 1]));
          }
        }
      }
    }
  }

  /** The elements kept appear in the order of their first occurrences. */
  lemma {:induction false} DedupeInOrder<T, K>(xs: seq<T>, key: T -> K, seen: set<K>)
    ensures InFirstOccurrenceOrder(xs, key, Dedupe(xs, key, seen))
    decreases |xs|
  {
    if xs != [] {
      var x := xs[0];
      var r := Dedupe(xs, key, seen);
      DedupeKeepsFirst(xs, key, seen);
      if key(x) in seen {
        var rest := Dedupe(xs[1..], key, seen);
        assert r == rest;
        DedupeInOrder(xs[1..], key, seen);
        forall p, q | 0 <= p < q < |r|
          ensures FirstWithKey(xs, key, key(r[p])) < FirstWithKey(xs, key, key(r[q]))
        {
          FirstWithKeyCons(xs, key, key(rest[p]));
          FirstWithKeyCons(xs, key, key(rest[q]));
        }
      } else {
        var rest := Dedupe(xs[1..], key, seen + {key(x)});
        assert r == [x] + rest;
        DedupeInOrder(xs[1..], key, seen + {key(x)});
        forall p, q | 0 <= p < q < |r|
          ensures FirstWithKey(xs, key, key(r[p])) < FirstWithKey(xs, key, key(r[q]))
        {
          assert r[q] == rest[q - 1];
          FirstWithKeyCons(xs, key, key(rest[q - 1]));
          if p > 0 {
            assert r[p] == rest[p - 1];
            FirstWithKeyCons(xs, key, key(rest[p - 1]));
          }
        }
      }
    }
  }

  /** Every key of `xs` outside `seen` is represented in the result. */
  lemma {:induction false} DedupeCovers<T, K>(xs: seq<T>, key: T -> K, seen: set<K>, i: nat)
    requires i < |xs| && key(xs[i]) !in seen
    ensures exists k :: 0 <= k < |Dedupe(xs, key, seen)| && key(Dedupe(xs, key, seen)[k]) == key(xs[i])
    decreases |xs|
  {
    var x := xs[0];
    var r := Dedupe(xs, key, seen);
    if key(x) in seen {
      DedupeCovers(xs[1..], key, seen, i - 1);
      var k :| 0 <= k < |Dedupe(xs[1..], key, seen)| && key(Dedupe(xs[1..], key, seen)[k]) == key(xs[i]);
      assert r[k] == Dedupe(xs[1..], key, seen)[k];
    } else if key(x) == key(xs[i]) {
      assert key(r[0]) == key(xs[i]);
    } else {
      var rest := Dedupe(xs[1..], key, seen + {key(x)});
      DedupeCovers(xs[1..], key, seen + {key(x)}, i - 1);
      var k :| 0 <= k < |rest| && key(rest[k]) == key(xs[i]);
      assert r[k + 1] == rest[k];
    }
  }

  /** An element whose key was already met does not change the result of `Dedupe`. */
  lemma {:induction false} DedupeIgnoresRepeat<T, K>(xs: seq<T>, t: T, key: T -> K, seen: set<K>)
    requires key(t) in seen || HasKey(xs, key, key(t))
    ensures Dedupe(xs + [t], key, seen) == Dedupe(xs, key, seen)
    decreases |xs|
  {
    if xs == [] {
      assert Dedupe([t], key, seen) == Dedupe([], key, seen);
    } else {
      var x := xs[0];
      assert (xs + [t])[0] == x && (xs + [t])[1..] == xs[1..] + [t];
      if key(x) in seen {
        DedupeIgnoresRepeat(xs[1..], t, key, seen);
      } else {
        DedupeIgnoresRepeat(xs[1..], t, key, seen + {key(x)});
      }
    }
  }
}
