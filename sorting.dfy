/**
 * The meaning of `Vec::sort_by(|a, b| key(b).cmp(key(a)))` in the Rust
 * standard library: a stable sort, largest key first. It is a library call
 * in the source, so it is modelled by a function (a stable insertion sort)
 * whose result is proved sorted, a permutation of the input, and stable.
 */
module Sorting {

  /** No element occurs twice. */
  predicate Distinct<T(==)>(s: seq<T>) {
    forall i, j :: 0 <= i < j < |s| ==> s[i] != s[j]
  }

  /** Keys never increase from left to right. */
  ghost predicate SortedDesc<T>(s: seq<T>, key: T -> real) {
    forall i, j :: 0 <= i < j < |s| ==> key(s[i]) >= key(s[j])
  }

  /** The elements of s whose key is v, in their order in s. */
  function WithKey<T>(s: seq<T>, key: T -> real, v: real): seq<T>
  {
    if s == [] then [] else (if key(s[0]) == v then [s[0]] else []) + WithKey(s[1..], key, v)
  }

  /**
   * Inserts x in front of the first element whose key is not above x's:
   * x lands after every larger key and before every equal one.
   */
  function InsertDesc<T>(x: T, s: seq<T>, key: T -> real): (r: seq<T>)
    ensures |r| == |s| + 1
    ensures multiset(r) == multiset(s) + multiset{x}
  {
    if s == [] || key(x) >= key(s[0]) then [x] + s
    else
      assert s == [s[0]] + s[1..];
      [s[0]] + InsertDesc(x, s[1..], key)
  }

  /** An element whose key bounds every key of a sorted t can go in front of it. */
  lemma {:induction false} ConsSorted<T>(y: T, t: seq<T>, key: T -> real)
    requires SortedDesc(t, key)
    requires forall i :: 0 <= i < |t| ==> key(y) >= key(t[i])
    ensures SortedDesc([y] + t, key)
  {
    var r := [y] + t;
    forall i, j | 0 <= i < j < |r| ensures key(r[i]) >= key(r[j]) {
      assert r[j] == t[j - 1];
      if i > 0 {
        assert r[i] == t[i - 1];
      }
    }
  }

  /** The tail of a sorted sequence is sorted. */
  lemma {:induction false} SortedTail<T>(s: seq<T>, key: T -> real)
    requires s != [] && SortedDesc(s, key)
    ensures SortedDesc(s[1..], key)
    ensures forall i :: 0 <= i < |s| ==> key(s[0]) >= key(s[i])
  {
    forall i, j | 0 <= i < j < |s[1..]| ensures key(s[1..][i]) >= key(s[1..][j]) {
      assert s[1..][i] == s[i + 1] && s[1..][j] == s[j + 1];
    }
  }

  /** Inserting into a sorted sequence keeps it sorted. */
  lemma {:induction false} InsertDescSorted<T>(x: T, s: seq<T>, key: T -> real)
    requires SortedDesc(s, key)
    ensures SortedDesc(InsertDesc(x, s, key), key)
    decreases |s|
  {
    if s == [] {
      ConsSorted(x, s, key);
    } else if key(x) >= key(s[0]) {
      SortedTail(s, key);
      ConsSorted(x, s, key);
    } else {
      var t := InsertDesc(x, s[1..], key);
      SortedTail(s, key);
      InsertDescSorted(x, s[1..], key);
      HeadDominates(x, s, t, key);
      ConsSorted(s[0], t, key);
    }
  }

  /** In a sorted s, the head's key bounds every key of s's tail and of any smaller x. */
  lemma {:induction false} HeadDominates<T>(x: T, s: seq<T>, t: seq<T>, key: T -> real)
    requires s != [] && key(x) < key(s[0])
    requires multiset(t) == multiset(s[1..]) + multiset{x}
    ensures SortedDesc(s, key) ==> forall i :: 0 <= i < |t| ==> key(s[0]) >= key(t[i])
  {
    if SortedDesc(s, key) {
      forall i | 0 <= i < |t| ensures key(s[0]) >= key(t[i]) {
        assert t[i] in multiset(t);
        if t[i] != x {
          assert t[i] in multiset(s[1..]);
          var j :| 0 <= j < |s[1..]| && s[1..][j] == t[i];
          assert s[j + 1] == t[i];
        }
      }
    }
  }

  /** Stable sort, largest key first. */
  function SortDesc<T>(s: seq<T>, key: T -> real): (r: seq<T>)
    ensures |r| == |s|
    ensures multiset(r) == multiset(s)
    ensures SortedDesc(r, key)
  {
    if s == [] then []
    else
      assert s == [s[0]] + s[1..];
      InsertDescSorted(s[0], SortDesc(s[1..], key), key);
      InsertDesc(s[0], SortDesc(s[1..], key), key)
  }

  /** Filtering by key distributes over putting one element in front. */
  lemma {:induction false} WithKeyCons<T>(y: T, s: seq<T>, key: T -> real, v: real)
    ensures WithKey([y] + s, key, v) == (if key(y) == v then [y] else []) + WithKey(s, key, v)
  {
    assert ([y] + s)[1..] == s;
  }

  /** Two fronts of which at most one is non-empty commute. */
  lemma {:induction false} SwapFront<T>(p: seq<T>, q: seq<T>, w: seq<T>)
    requires p == [] || q == []
    ensures p + (q + w) == q + (p + w)
  {
    if p == [] {
      assert p + (q + w) == q + w;
      assert p + w == w;
    } else {
      assert q + w == w;
      assert q + (p + w) == p + w;
    }
  }

  /** Filtering a sequence split at its head. */
  lemma {:induction false} WithKeyHead<T>(s: seq<T>, key: T -> real, v: real)
    requires s != []
    ensures WithKey(s, key, v) == (if key(s[0]) == v then [s[0]] else []) + WithKey(s[1..], key, v)
  {
  }

  /** Inserting x moves it only past elements of other (larger) keys. */
  lemma {:induction false} InsertDescStable<T>(x: T, s: seq<T>, key: T -> real, v: real)
    ensures WithKey(InsertDesc(x, s, key), key, v) == WithKey([x] + s, key, v)
    decreases |s|
  {
    if s == [] || key(x) >= key(s[0]) {
      assert InsertDesc(x, s, key) == [x] + s;
    } else {
      var t := InsertDesc(x, s[1..], key);
      assert InsertDesc(x, s, key) == [s[0]] + t;
      InsertDescStable(x, s[1..], key, v);
      WithKeyCons(s[0], t, key, v);
      WithKeyCons(x, s[1..], key, v);
      WithKeyCons(x, s, key, v);
      WithKeyHead(s, key, v);
      SwapFront(if key(s[0]) == v then [s[0]] else [], if key(x) == v then [x] else [], WithKey(s[1..], key, v));
    }
  }

  /**
   * Stability: for every key value, the elements carrying it appear in the
   * sorted output in the same order as in the input.
   */
  lemma {:induction false} SortDescStable<T>(s: seq<T>, key: T -> real, v: real)
    ensures WithKey(SortDesc(s, key), key, v) == WithKey(s, key, v)
    decreases |s|
  {
    if s != [] {
      var t := SortDesc(s[1..], key);
      InsertDescStable(s[0], t, key, v);
      SortDescStable(s[1..], key, v);
      assert ([s[0]] + t)[1..] == t;
    }
  }
}
