/**
 * Python's `sorted(s, key=...)` and `list.sort(key=...)`: a stable sort on
 * integer-tuple keys. `reverse=True` keeps stability in Python, so a
 * descending sort on `f` is the ascending sort on the negated key `[-f(x)]`.
 */
module StableSort {
  import Seqs

  /** A sort key: a tuple of integers. */
  type Key = seq<int>

  /** Python's tuple comparison `a <= b` (lexicographic). */
  predicate KeyLe(a: Key, b: Key)
    decreases |a|
  {
    a == [] || (b != [] && (a[0] < b[0] || (a[0] == b[0] && KeyLe(a[1..], b[1..]))))
  }

  lemma {:induction false} KeyLeReflexive(a: Key)
    ensures KeyLe(a, a)
    decreases |a|
  {
    if a != [] {
      KeyLeReflexive(a[1..]);
    }
  }

  lemma {:induction false} KeyLeTotal(a: Key, b: Key)
    ensures KeyLe(a, b) || KeyLe(b, a)
    decreases |a|
  {
    if a != [] && b != [] && a[0] == b[0] {
      KeyLeTotal(a[1..], b[1..]);
    }
  }

  lemma {:induction false} KeyLeTransitive(a: Key, b: Key, c: Key)
    requires KeyLe(a, b) && KeyLe(b, c)
    ensures KeyLe(a, c)
    decreases |a|
  {
    if a != [] && a[0] == b[0] && b[0] == c[0] {
      KeyLeTransitive(a[1..], b[1..], c[1..]);
    }
  }

  lemma {:induction false} KeyLeAntisymmetric(a: Key, b: Key)
    requires KeyLe(a, b) && KeyLe(b, a)
    ensures a == b
    decreases |a|
  {
    if a != [] {
      KeyLeAntisymmetric(a[1..], b[1..]);
      assert a == [a[0]] + a[1..] && b == [b[0]] + b[1..];
    }
  }

  /** On one-element keys the order is the integer order. */
  lemma KeyLeSingleton(x: int, y: int)
    ensures KeyLe([x], [y]) <==> x <= y
  {
    assert [x][1..] == [] && [y][1..] == [];
  }

  /** One step of the comparison: the heads decide unless they are equal. */
  lemma KeyLeStep(a: Key, b: Key)
    requires a != [] && b != []
    ensures KeyLe(a, b) <==> a[0] < b[0] || (a[0] == b[0] && KeyLe(a[1..], b[1..]))
  {
  }

  /** The comparison of two four-component keys, spelled out. */
  lemma KeyLeFour(a: Key, b: Key)
    requires |a| == 4 && |b| == 4
    ensures KeyLe(a, b) <==>
      a[0] < b[0] || (a[0] == b[0] && (a[1] < b[1] || (a[1] == b[1] && (a[2] < b[2] || (a[2] == b[2] && a[3] <= b[3])))))
  {
    var a1, b1 := a[1..], b[1..];
    var a2, b2 := a1[1..], b1[1..];
    var a3, b3 := a2[1..], b2[1..];
    KeyLeStep(a, b);
    KeyLeStep(a1, b1);
    KeyLeStep(a2, b2);
    KeyLeStep(a3, b3);
    assert a3[1..] == [];
    assert a1[0] == a[1] && a2[0] == a[2] && a3[0] == a[3];
    assert b1[0] == b[1] && b2[0] == b[2] && b3[0] == b[3];
  }

  /** `s` is in ascending key order. */
  predicate Sorted<T>(s: seq<T>, key: T -> Key) {
    forall i, j :: 0 <= i < j < |s| ==> KeyLe(key(s[i]), key(s[j]))
  }

  /** Puts `x` in front of the first element whose key is not smaller. */
  function Insert<T>(x: T, s: seq<T>, key: T -> Key): (r: seq<T>)
    ensures |r| == |s| + 1
    ensures multiset(r) == multiset(s) + multiset{x}
  {
    if s == [] || KeyLe(key(x), key(s[0])) then [x] + s
    else
      assert s == [s[0]] + s[1..];
      [s[0]] + Insert(x, s[1..], key)
  }

  /** `sorted(s, key=key)`: insertion from the back, so that equal keys keep their order. */
  function SortBy<T>(s: seq<T>, key: T -> Key): (r: seq<T>)
    ensures |r| == |s|
    ensures multiset(r) == multiset(s)
  {
    if s == [] then []
    else
      assert s == [s[0]] + s[1..];
      Insert(s[0], SortBy(s[1..], key), key)
  }

  lemma {:induction false} InsertSorted<T>(x: T, s: seq<T>, key: T -> Key)
    requires Sorted(s, key)
    ensures Sorted(Insert(x, s, key), key)
  {
    var r := Insert(x, s, key);
    if s == [] || KeyLe(key(x), key(s[0])) {
      forall i, j | 0 <= i < j < |r| ensures KeyLe(key(r[i]), key(r[j])) {
        if i == 0 && j > 1 {
          KeyLeTransitive(key(x), key(s[0]), key(s[j - 1]));
        }
      }
    } else {
      InsertSorted(x, s[1..], key);
      var t := Insert(x, s[1..], key);
      assert r == [s[0]] + t;
      KeyLeTotal(key(x), key(s[0]));
      assert multiset(t) == multiset(s[1..]) + multiset{x};
      forall j | 0 <= j < |t| ensures KeyLe(key(s[0]), key(t[j])) {
        assert t[j] in multiset(t);
        if t[j] != x {
          assert t[j] in multiset(s[1..]);
          var m :| 0 <= m < |s[1..]| && s[1..][m] == t[j];
          assert s[m + 1] == t[j];
        }
      }
    }
  }

  /** The output of `SortBy` is in ascending key order. */
  lemma {:induction false} SortBySorted<T>(s: seq<T>, key: T -> Key)
    ensures Sorted(SortBy(s, key), key)
  {
    if s != [] {
      SortBySorted(s[1..], key);
      InsertSorted(s[0], SortBy(s[1..], key), key);
    }
  }

  /** Sorting a sequence that is already in key order leaves it unchanged. */
  lemma {:induction false} SortByOfSorted<T>(s: seq<T>, key: T -> Key)
    requires Sorted(s, key)
    ensures SortBy(s, key) == s
  {
    if s != [] {
      var t := s[1..];
      assert Sorted(t, key) by {
        forall i, j | 0 <= i < j < |t| ensures KeyLe(key(t[i]), key(t[j])) {
          assert t[i] == s[i + 1] && t[j] == s[j + 1];
        }
      }
      SortByOfSorted(t, key);
      if t != [] {
        assert KeyLe(key(s[0]), key(t[0]));
      }
      assert [s[0]] + t == s;
    }
  }

  /** The test "the key of this element is `k`". */
  function HasKey<T>(key: T -> Key, k: Key): T -> bool {
    x => key(x) == k
  }

  /** The elements of `s` whose key is `k`, in their order in `s`. */
  function WithKey<T>(s: seq<T>, key: T -> Key, k: Key): seq<T> {
    Seqs.Filter(s, HasKey(key, k))
  }

  lemma {:induction false} InsertWithKey<T>(x: T, s: seq<T>, key: T -> Key, k: Key)
    ensures WithKey(Insert(x, s, key), key, k) == (if key(x) == k then [x] else []) + WithKey(s, key, k)
  {
    var p := HasKey(key, k);
    Seqs.FilterSingleton(x, p);
    if s == [] || KeyLe(key(x), key(s[0])) {
      assert Insert(x, s, key) == [x] + s;
      Seqs.FilterAppend([x], s, p);
    } else {
      var t := Insert(x, s[1..], key);
      assert Insert(x, s, key) == [s[0]] + t;
      InsertWithKey(x, s[1..], key, k);
      KeyLeReflexive(key(x));
      Seqs.FilterConsSwap(s[0], t, s[1..], x, p);
      assert [s[0]] + s[1..] == s;
    }
  }

  /**
   * Stability: for every key, the elements carrying it appear in the output
   * in the same relative order as in the input.
   */
  lemma {:induction false} SortByStable<T>(s: seq<T>, key: T -> Key, k: Key)
    ensures WithKey(SortBy(s, key), key, k) == WithKey(s, key, k)
  {
    if s != [] {
      SortByStable(s[1..], key, k);
      InsertWithKey(s[0], SortBy(s[1..], key), key, k);
    }
  }

  /** Two elements whose keys are strictly ordered come out in key order from either input order. */
  lemma SortPair<T>(x: T, y: T, key: T -> Key)
    requires KeyLe(key(x), key(y)) && !KeyLe(key(y), key(x))
    ensures SortBy([x, y], key) == [x, y]
    ensures SortBy([y, x], key) == [x, y]
  {
    assert [x, y][1..] == [y] && [y, x][1..] == [x];
    assert [x][1..] == [] && [y][1..] == [];
    assert SortBy([x], key) == [x];
    assert SortBy([y], key) == [y];
    assert Insert(y, [x], key) == [x] + Insert(y, [], key);
  }

  /** Stability for every key at once. */
  lemma SortByStableAll<T>(s: seq<T>, key: T -> Key)
    ensures forall k :: WithKey(SortBy(s, key), key, k) == WithKey(s, key, k)
  {
    forall k ensures WithKey(SortBy(s, key), key, k) == WithKey(s, key, k) {
      SortByStable(s, key, k);
    }
  }

  /** The one-element key `[-f(x)]`, under which ascending means descending in `f`. */
  function Negated<T>(f: T -> int): T -> Key {
    x => [-f(x)]
  }

  /** Ascending order on the negated key is non-increasing order of `f`. */
  lemma SortedNegated<T>(s: seq<T>, f: T -> int)
    requires Sorted(s, Negated(f))
    ensures forall i, j :: 0 <= i < j < |s| ==> f(s[i]) >= f(s[j])
  {
    forall i, j | 0 <= i < j < |s| ensures f(s[i]) >= f(s[j]) {
      assert KeyLe(Negated(f)(s[i]), Negated(f)(s[j]));
      KeyLeSingleton(-f(s[i]), -f(s[j]));
    }
  }

  /**
   * `sorted(s, key=f, reverse=True)` for an integer key: a permutation of
   * `s` in non-increasing order of `f`, where elements with equal keys keep
   * their order in `s`.
   */
  function SortDescending<T>(s: seq<T>, f: T -> int): (r: seq<T>)
    ensures multiset(r) == multiset(s)
    ensures forall i, j :: 0 <= i < j < |r| ==> f(r[i]) >= f(r[j])
    ensures forall k :: WithKey(r, Negated(f), k) == WithKey(s, Negated(f), k)
  {
    SortBySorted(s, Negated(f));
    SortedNegated(SortBy(s, Negated(f)), f);
    SortByStableAll(s, Negated(f));
    SortBy(s, Negated(f))
  }

  /** In a non-increasing sequence, every element after the first n is at most each of the first n. */
  lemma DescendingPrefix<T>(sorted: seq<T>, f: T -> int, n: nat)
    requires n <= |sorted|
    requires forall i, j :: 0 <= i < j < |sorted| ==> f(sorted[i]) >= f(sorted[j])
    ensures forall x :: x in multiset(sorted) - multiset(sorted[..n]) ==>
      forall i :: 0 <= i < n ==> f(x) <= f(sorted[i])
  {
    var r, rest := sorted[..n], sorted[n..];
    assert sorted == r + rest;
    assert multiset(sorted) == multiset(r) + multiset(rest);
    forall x | x in multiset(sorted) - multiset(r)
      ensures forall i :: 0 <= i < n ==> f(x) <= f(sorted[i])
    {
      assert x in multiset(rest);
      var m :| 0 <= m < |rest| && rest[m] == x;
      assert sorted[n + m] == x;
    }
  }

  /**
   * `sorted(s, key=f, reverse=True)[:n]`: as many elements as the slice
   * keeps, drawn from `s`, in non-increasing order of `f`.
   */
  function TopBy<T>(s: seq<T>, f: T -> int, n: int): (r: seq<T>)
    ensures |r| == Seqs.PrefixLength(|s|, n)
    ensures multiset(r) <= multiset(s)
    ensures forall i, j :: 0 <= i < j < |r| ==> f(r[i]) >= f(r[j])
  {
    var sorted := SortDescending(s, f);
    Seqs.PrefixSubMultiset(sorted, n);
    Seqs.Prefix(sorted, n)
  }

  /** Every element the slice leaves out is at most each element it keeps. */
  lemma TopByBest<T>(s: seq<T>, f: T -> int, n: int)
    ensures var r := TopBy(s, f, n);
      forall x :: x in multiset(s) - multiset(r) ==>
        forall i :: 0 <= i < |r| ==> f(x) <= f(r[i])
  {
    var sorted := SortDescending(s, f);
    DescendingPrefix(sorted, f, Seqs.PrefixLength(|sorted|, n));
  }

  /** Elements with equal keys keep their order: for each key, the kept ones are the first of them in `s`. */
  lemma TopByStable<T>(s: seq<T>, f: T -> int, n: int)
    ensures forall k :: WithKey(TopBy(s, f, n), Negated(f), k) <= WithKey(s, Negated(f), k)
  {
    var sorted := SortDescending(s, f);
    var m := |TopBy(s, f, n)|;
    forall k ensures WithKey(sorted[..m], Negated(f), k) <= WithKey(s, Negated(f), k) {
      Seqs.FilterOfPrefix(sorted, m, HasKey(Negated(f), k));
    }
  }

  /** Sorting twice sorts once: the descending sort of a sorted sequence is that sequence. */
  lemma SortDescendingIdempotent<T>(s: seq<T>, f: T -> int)
    ensures SortDescending(SortDescending(s, f), f) == SortDescending(s, f)
  {
    var r := SortDescending(s, f);
    SortBySorted(s, Negated(f));
    SortByOfSorted(r, Negated(f));
  }

  /** Sorting the images under `f` is taking the images of the sorted sequence. */
  lemma {:induction false} SortByMap<T, U>(s: seq<T>, f: T -> U, key: T -> Key, key': U -> Key)
    requires forall x :: key'(f(x)) == key(x)
    ensures SortBy(Seqs.Map(s, f), key') == Seqs.Map(SortBy(s, key), f)
  {
    if s != [] {
      SortByMap(s[1..], f, key, key');
      assert Seqs.Map(s, f)[1..] == Seqs.Map(s[1..], f);
      InsertMap(s[0], SortBy(s[1..], key), f, key, key');
    }
  }

  lemma {:induction false} InsertMap<T, U>(x: T, s: seq<T>, f: T -> U, key: T -> Key, key': U -> Key)
    requires forall y :: key'(f(y)) == key(y)
    ensures Insert(f(x), Seqs.Map(s, f), key') == Seqs.Map(Insert(x, s, key), f)
  {
    if s != [] && !KeyLe(key(x), key(s[0])) {
      InsertMap(x, s[1..], f, key, key');
      assert Seqs.Map(s, f)[1..] == Seqs.Map(s[1..], f);
    }
  }
}
