/** Collapsing the recorded artifacts to one per key, as `_.uniqBy(files,
    'relative')` does (index.js:128). */
module Dedup {

  /** The keys that occur in `xs`. */
  ghost function KeySet<T, K>(xs: seq<T>, key: T -> K): set<K> {
    set i | 0 <= i < |xs| :: key(xs[i])
  }

  /** `xs[i]` is the first element of `xs` with its key. */
  predicate IsFirstWithKey<T, K(==)>(xs: seq<T>, key: T -> K, i: int) {
    0 <= i < |xs| && forall m :: 0 <= m < i ==> key(xs[m]) != key(xs[i])
  }

  /** No two elements of `r` share a key. */
  predicate KeysDistinct<T, K(==)>(r: seq<T>, key: T -> K) {
    forall j1, j2 :: 0 <= j1 < j2 < |r| ==> key(r[j1]) != key(r[j2])
  }

  /** No element of `r` has a key in `seen`. */
  predicate KeysOutside<T, K(==)>(r: seq<T>, key: T -> K, seen: set<K>) {
    forall j :: 0 <= j < |r| ==> key(r[j]) !in seen
  }

  /** Each element of `r` is the first element of `xs` with its key, and
      that key is not in `seen`. */
  ghost predicate AllFirstOccurrences<T, K>(r: seq<T>, xs: seq<T>, key: T -> K, seen: set<K>) {
    forall j :: 0 <= j < |r| ==> IsFirstOccurrence(r[j], xs, key, seen)
  }

  /** `x` is the first element of `xs` with its key, and that key is not in
      `seen`. */
  ghost predicate IsFirstOccurrence<T, K>(x: T, xs: seq<T>, key: T -> K, seen: set<K>) {
    exists i :: IsFirstWithKey(xs, key, i) && x == xs[i] && key(xs[i]) !in seen
  }

  /** `a` is `b` with some elements left out, the rest kept in order. */
  predicate IsSubsequence<T(==)>(a: seq<T>, b: seq<T>)
    decreases |b|
  {
    a == [] ||
    (b != [] && ((a[0] == b[0] && IsSubsequence(a[1..], b[1..])) || IsSubsequence(a, b[1..])))
  }

  /** The elements of `xs` whose key is not in `seen` and has not occurred
      earlier, in order. */
  function UniqByFrom<T, K(==)>(xs: seq<T>, key: T -> K, seen: set<K>): seq<T>
    decreases |xs|
  {
    if xs == [] then []
    else if key(xs[0]) in seen then UniqByFrom(xs[1..], key, seen)
    else [xs[0]] + UniqByFrom(xs[1..], key, seen + {key(xs[0])})
  }

  /** `_.uniqBy`: keeps the first element for each key. */
  function UniqBy<T, K(==)>(xs: seq<T>, key: T -> K): seq<T> {
    UniqByFrom(xs, key, {})
  }

  lemma KeySetCons<T, K>(xs: seq<T>, key: T -> K)
    requires xs != []
    ensures KeySet(xs, key) == {key(xs[0])} + KeySet(xs[1..], key)
  {
    forall k | k in KeySet(xs, key)
      ensures k in {key(xs[0])} + KeySet(xs[1..], key)
    {
      var i :| 0 <= i < |xs| && key(xs[i]) == k;
      if i > 0 {
        assert xs[1..][i - 1] == xs[i];
      }
    }
    forall k | k in KeySet(xs[1..], key)
      ensures k in KeySet(xs, key)
    {
      var i :| 0 <= i < |xs[1..]| && key(xs[1..][i]) == k;
      assert xs[i + 1] == xs[1..][i];
    }
  }

  /** No two kept elements share a key, and none has a key from `seen`. */
  lemma {:induction false} UniqByFromDistinct<T, K>(xs: seq<T>, key: T -> K, seen: set<K>)
    ensures KeysOutside(UniqByFrom(xs, key, seen), key, seen)
    ensures KeysDistinct(UniqByFrom(xs, key, seen), key)
    decreases |xs|
  {
    if xs != [] {
      var r := UniqByFrom(xs, key, seen);
      if key(xs[0]) in seen {
        assert r == UniqByFrom(xs[1..], key, seen);
        UniqByFromDistinct(xs[1..], key, seen);
      } else {
        var rest := UniqByFrom(xs[1..], key, seen + {key(xs[0])});
        UniqByFromDistinct(xs[1..], key, seen + {key(xs[0])});
        assert r == [xs[0]] + rest;
        forall j | 1 <= j < |r|
          ensures r[j] == rest[j - 1] && key(r[j]) != key(xs[0]) && key(r[j]) !in seen
        {
          assert key(rest[j - 1]) !in seen + {key(xs[0])};
        }
      }
    }
  }

  /** Every key of `xs` outside `seen` is kept, and no other. */
  lemma {:induction false} UniqByFromCovers<T, K>(xs: seq<T>, key: T -> K, seen: set<K>)
    ensures KeySet(UniqByFrom(xs, key, seen), key) == KeySet(xs, key) - seen
    decreases |xs|
  {
    var r := UniqByFrom(xs, key, seen);
    if xs == [] {
      assert KeySet(r, key) == {};
    } else {
      KeySetCons(xs, key);
      if key(xs[0]) in seen {
        UniqByFromCovers(xs[1..], key, seen);
      } else {
        var rest := UniqByFrom(xs[1..], key, seen + {key(xs[0])});
        UniqByFromCovers(xs[1..], key, seen + {key(xs[0])});
        assert r == [xs[0]] + rest;
        KeySetCons(r, key);
        assert r[1..] == rest;
      }
    }
  }

  /** Every kept element is the first occurrence of its key in `xs`. */
  lemma {:induction false} UniqByFromFirsts<T, K>(xs: seq<T>, key: T -> K, seen: set<K>)
    ensures AllFirstOccurrences(UniqByFrom(xs, key, seen), xs, key, seen)
    decreases |xs|
  {
    if xs != [] {
      var r := UniqByFrom(xs, key, seen);
      var k0 := key(xs[0]);
      var seen' := if k0 in seen then seen else seen + {k0};
      var rest := UniqByFrom(xs[1..], key, seen');
      var skip := if k0 in seen then 0 else 1;
      assert r == if k0 in seen then rest else [xs[0]] + rest;
      UniqByFromFirsts(xs[1..], key, seen');
      forall j | 0 <= j < |r|
        ensures IsFirstOccurrence(r[j], xs, key, seen)
      {
        if j < skip {
          assert IsFirstWithKey(xs, key, 0) && r[j] == xs[0];
        } else {
          var jj := j - skip;
          assert 0 <= jj < |rest| && r[j] == rest[jj];
          assert IsFirstOccurrence(rest[jj], xs[1..], key, seen');
          var i' :| IsFirstWithKey(xs[1..], key, i') && rest[jj] == xs[1..][i'] && key(xs[1..][i']) !in seen';
          FirstWithKeyShift(xs, key, i');
          assert IsFirstWithKey(xs, key, i' + 1) && r[j] == xs[i' + 1] && key(xs[i' + 1]) !in seen;
        }
      }
    }
  }

  lemma FirstWithKeyShift<T, K>(xs: seq<T>, key: T -> K, i: int)
    requires xs != [] && IsFirstWithKey(xs[1..], key, i) && key(xs[1..][i]) != key(xs[0])
    ensures IsFirstWithKey(xs, key, i + 1) && xs[i + 1] == xs[1..][i]
  {
    forall m | 0 <= m < i + 1
      ensures key(xs[m]) != key(xs[i + 1])
    {
      if m > 0 {
        assert xs[m] == xs[1..][m - 1];
      }
    }
  }

  /** The kept elements appear in the same order as in `xs`. */
  lemma {:induction false} UniqByFromOrdered<T, K>(xs: seq<T>, key: T -> K, seen: set<K>)
    ensures IsSubsequence(UniqByFrom(xs, key, seen), xs)
    decreases |xs|
  {
    if xs != [] {
      var r := UniqByFrom(xs, key, seen);
      if key(xs[0]) in seen {
        UniqByFromOrdered(xs[1..], key, seen);
      } else {
        UniqByFromOrdered(xs[1..], key, seen + {key(xs[0])});
        assert r[0] == xs[0] && r[1..] == UniqByFrom(xs[1..], key, seen + {key(xs[0])});
      }
    }
  }

  /** What `_.uniqBy` promises: pairwise distinct keys, every key of the
      input kept, each kept element the first with its key, original order. */
  lemma UniqByFirstOccurrences<T, K>(xs: seq<T>, key: T -> K)
    ensures KeysDistinct(UniqBy(xs, key), key)
    ensures KeySet(UniqBy(xs, key), key) == KeySet(xs, key)
    ensures AllFirstOccurrences(UniqBy(xs, key), xs, key, {})
    ensures IsSubsequence(UniqBy(xs, key), xs)
  {
    UniqByFromDistinct(xs, key, {});
    UniqByFromCovers(xs, key, {});
    UniqByFromFirsts(xs, key, {});
    UniqByFromOrdered(xs, key, {});
  }
}
