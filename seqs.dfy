/** List comprehensions and slices: `[f(x) for x in s]`, `[x for x in s if p(x)]`, `s[:n]`. */
module Seqs {

  /** `[f(x) for x in s]`. */
  function Map<T, U>(s: seq<T>, f: T -> U): (r: seq<U>)
    ensures |r| == |s|
    ensures forall i :: 0 <= i < |s| ==> r[i] == f(s[i])
  {
    if s == [] then [] else [f(s[0])] + Map(s[1..], f)
  }

  /** `[x for x in s if p(x)]`. */
  function Filter<T>(s: seq<T>, p: T -> bool): (r: seq<T>)
    ensures |r| <= |s|
    ensures forall i :: 0 <= i < |r| ==> p(r[i])
  {
    if s == [] then [] else (if p(s[0]) then [s[0]] else []) + Filter(s[1..], p)
  }

  /** Filtering only drops elements: every element kept is kept no more often than it occurs. */
  lemma {:induction false} FilterSubMultiset<T>(s: seq<T>, p: T -> bool)
    ensures multiset(Filter(s, p)) <= multiset(s)
  {
    if s != [] {
      FilterSubMultiset(s[1..], p);
      assert s == [s[0]] + s[1..];
    }
  }

  /** Filtering keeps exactly the elements that pass, each as often as it occurs. */
  lemma {:induction false} FilterMultiplicity<T>(s: seq<T>, p: T -> bool, x: T)
    ensures multiset(Filter(s, p))[x] == if p(x) then multiset(s)[x] else 0
  {
    if s != [] {
      FilterMultiplicity(s[1..], p, x);
      assert s == [s[0]] + s[1..];
    }
  }

  /** `FilterMultiplicity` for every element at once. */
  lemma FilterMultiplicities<T>(s: seq<T>, p: T -> bool)
    ensures forall x :: multiset(Filter(s, p))[x] == if p(x) then multiset(s)[x] else 0
  {
    forall x ensures multiset(Filter(s, p))[x] == if p(x) then multiset(s)[x] else 0 {
      FilterMultiplicity(s, p, x);
    }
  }

  /** What a filter keeps of a prefix is a prefix of what it keeps of the whole. */
  lemma {:induction false} FilterOfPrefix<T>(s: seq<T>, k: nat, p: T -> bool)
    requires k <= |s|
    ensures Filter(s[..k], p) <= Filter(s, p)
  {
    var head, tail := s[..k], s[k..];
    assert head + tail == s;
    FilterAppend(head, tail, p);
    var fh := Filter(head, p);
    assert fh <= fh + Filter(tail, p);
  }

  /** A property every element of `s` has, every element of a sub-multiset of `s` has. */
  lemma SubMultisetAll<T>(s: seq<T>, r: seq<T>, p: T -> bool)
    requires multiset(r) <= multiset(s)
    requires forall i :: 0 <= i < |s| ==> p(s[i])
    ensures forall i :: 0 <= i < |r| ==> p(r[i])
  {
    forall i | 0 <= i < |r| ensures p(r[i]) {
      assert r[i] in multiset(r);
      assert r[i] in multiset(s);
      var j :| 0 <= j < |s| && s[j] == r[i];
    }
  }

  /** Two filters applied one after the other give the same result in either order. */
  lemma {:induction false} FiltersCommute<T>(s: seq<T>, p: T -> bool, q: T -> bool)
    ensures Filter(Filter(s, p), q) == Filter(Filter(s, q), p)
  {
    if s != [] {
      FiltersCommute(s[1..], p, q);
      var h, t := s[0], s[1..];
      FilterSingleton(h, p);
      FilterSingleton(h, q);
      FilterAppend(Filter([h], p), Filter(t, p), q);
      FilterAppend(Filter([h], q), Filter(t, q), p);
      if p(h) && q(h) {
        FilterSingleton(h, q);
        FilterSingleton(h, p);
      } else {
        assert Filter(Filter([h], p), q) == [] by {
          if p(h) { FilterSingleton(h, q); }
        }
        assert Filter(Filter([h], q), p) == [] by {
          if q(h) { FilterSingleton(h, p); }
        }
      }
    }
  }

  /** Filtering keeps relative order: it distributes over concatenation. */
  lemma {:induction false} FilterAppend<T>(a: seq<T>, b: seq<T>, p: T -> bool)
    ensures Filter(a + b, p) == Filter(a, p) + Filter(b, p)
  {
    if a == [] {
      assert a + b == b;
    } else {
      assert (a + b)[0] == a[0];
      assert (a + b)[1..] == a[1..] + b;
      FilterAppend(a[1..], b, p);
    }
  }

  /** A one-element sequence keeps its element exactly when it passes. */
  lemma FilterSingleton<T>(x: T, p: T -> bool)
    ensures Filter([x], p) == if p(x) then [x] else []
  {
    assert [x][1..] == [];
  }

  /**
   * Moving `x` behind `y` leaves the filtered sequence as it was when at
   * most one of the two passes.
   */
  lemma FilterConsSwap<T>(y: T, t: seq<T>, rest: seq<T>, x: T, p: T -> bool)
    requires Filter(t, p) == Filter([x], p) + Filter(rest, p)
    requires !(p(x) && p(y))
    ensures Filter([y] + t, p) == Filter([x], p) + Filter([y] + rest, p)
  {
    FilterSingleton(x, p);
    FilterSingleton(y, p);
    FilterAppend([y], t, p);
    FilterAppend([y], rest, p);
    var mine, first, tail := Filter([x], p), Filter([y], p), Filter(rest, p);
    if p(x) {
      assert first == [];
      assert first + (mine + tail) == mine + tail;
      assert first + tail == tail;
    } else {
      assert mine == [];
      assert mine + (first + tail) == first + tail;
      assert mine + tail == tail;
    }
  }

  /** Filtering drops nothing when every element passes. */
  lemma {:induction false} FilterAll<T>(s: seq<T>, p: T -> bool)
    requires forall i :: 0 <= i < |s| ==> p(s[i])
    ensures Filter(s, p) == s
  {
    if s != [] {
      FilterAll(s[1..], p);
    }
  }

  /** Mapping after filtering on the mapped value is filtering then mapping. */
  lemma {:induction false} MapFilter<T, U>(s: seq<T>, f: T -> U, p: T -> bool, q: U -> bool)
    requires forall x :: p(x) == q(f(x))
    ensures Filter(Map(s, f), q) == Map(Filter(s, p), f)
  {
    if s != [] {
      MapFilter(s[1..], f, p, q);
      var m := Map(s, f);
      assert m[0] == f(s[0]) && m[1..] == Map(s[1..], f);
      assert p(s[0]) == q(f(s[0]));
    }
  }

  /** The number of elements `s[:n]` keeps, Python's slice rule for a negative bound included. */
  function PrefixLength(len: nat, n: int): (k: nat)
    ensures k <= len
  {
    if n >= 0 then (if n < len then n else len)
    else if len + n > 0 then len + n else 0
  }

  /** `s[:n]`. */
  function Prefix<T>(s: seq<T>, n: int): (r: seq<T>)
    ensures r <= s
    ensures n >= 0 ==> |r| == if n < |s| then n else |s|
    ensures n < 0 ==> |r| == if |s| + n > 0 then |s| + n else 0
  {
    s[..PrefixLength(|s|, n)]
  }

  /** A slice keeps each element no more often than the whole. */
  lemma PrefixSubMultiset<T>(s: seq<T>, n: int)
    ensures multiset(Prefix(s, n)) <= multiset(s)
  {
    var k := PrefixLength(|s|, n);
    assert s == s[..k] + s[k..];
  }
}
