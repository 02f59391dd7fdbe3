/**
 * The array operations the handlers chain together: `Array.prototype.filter`,
 * `every`, and `sort` with a comparator (a stable sort over an abstract order).
 */
module Seqs {

  /** `s.filter(p)`: the elements satisfying `p`, in their original order. */
  function Filter<T(!new)>(s: seq<T>, p: T -> bool): (r: seq<T>)
    ensures |r| <= |s|
    ensures forall x :: x in r <==> x in s && p(x)
    ensures forall x :: multiset(r)[x] == if p(x) then multiset(s)[x] else 0
  {
    if |s| == 0 then []
    else
      assert s == [s[0]] + s[1..];
      if p(s[0]) then [s[0]] + Filter(s[1..], p) else Filter(s[1..], p)
  }

  /** Filtering a concatenation filters each part: the kept elements stay in input order. */
  lemma {:induction false} FilterAppend<T(!new)>(s: seq<T>, t: seq<T>, p: T -> bool)
    ensures Filter(s + t, p) == Filter(s, p) + Filter(t, p)
  {
    if |s| > 0 {
      var st := s + t;
      assert st[0] == s[0] && st[1..] == s[1..] + t;
      FilterAppend(s[1..], t, p);
      var rest := Filter(s[1..], p) + Filter(t, p);
      assert Filter(st, p) == if p(s[0]) then [s[0]] + rest else rest;
    } else {
      assert s + t == t;
    }
  }

  /** Two filters in a row keep what passes both. */
  lemma {:induction false} FilterFilter<T(!new)>(s: seq<T>, p: T -> bool, q: T -> bool)
    ensures Filter(Filter(s, p), q) == Filter(s, x => p(x) && q(x))
  {
    if |s| > 0 {
      FilterFilter(s[1..], p, q);
      if p(s[0]) {
        assert Filter(s, p)[1..] == Filter(s[1..], p);
      }
    }
  }

  /** Filters that agree on the elements of `s` keep the same list. */
  lemma {:induction false} FilterSame<T(!new)>(s: seq<T>, p: T -> bool, q: T -> bool)
    requires forall x :: x in s ==> p(x) == q(x)
    ensures Filter(s, p) == Filter(s, q)
  {
    if |s| > 0 {
      assert forall x :: x in s[1..] ==> x in s;
      FilterSame(s[1..], p, q);
    }
  }

  /** A filter applied only when `c` holds is the filter by `c ==> p`, given as `q`. */
  lemma FilterWhen<T(!new)>(s: seq<T>, c: bool, p: T -> bool, q: T -> bool)
    requires forall x :: q(x) == (c ==> p(x))
    ensures (if c then Filter(s, p) else s) == Filter(s, q)
  {
    if c {
      FilterSame(s, p, q);
    } else {
      FilterNone(s, q);
    }
  }

  /** A filter, then a second one applied only when `c` holds, is one filter by both tests, `q`. */
  lemma FilterThenWhen<T(!new)>(s: seq<T>, w: T -> bool, c: bool, p: T -> bool, q: T -> bool)
    requires forall x :: q(x) == (w(x) && (c ==> p(x)))
    ensures (if c then Filter(Filter(s, w), p) else Filter(s, w)) == Filter(s, q)
  {
    if c {
      FilterFilter(s, w, p);
      FilterSame(s, x => w(x) && p(x), q);
    } else {
      FilterSame(s, w, q);
    }
  }

  /** A filter every element passes keeps the list as it is. */
  lemma {:induction false} FilterNone<T(!new)>(s: seq<T>, p: T -> bool)
    requires forall x :: x in s ==> p(x)
    ensures Filter(s, p) == s
  {
    if |s| > 0 {
      assert forall x :: x in s[1..] ==> x in s;
      FilterNone(s[1..], p);
      assert s == [s[0]] + s[1..];
    }
  }

  /**
   * An element that passes and has no passing predecessor with the same key comes, in the
   * filtered list, before every other element with that key.
   */
  lemma FilterKeepsEarliest<T(!new), K>(s: seq<T>, p: T -> bool, key: T -> K, i: nat)
    requires i < |s| && p(s[i])
    requires forall j :: 0 <= j < i && p(s[j]) ==> key(s[j]) != key(s[i])
    ensures exists k :: 0 <= k < |Filter(s, p)| && Filter(s, p)[k] == s[i] &&
                        forall j :: 0 <= j < k ==> key(Filter(s, p)[j]) != key(s[i])
  {
    assert s == s[..i] + [s[i]] + s[i + 1..];
    FilterAppend(s[..i] + [s[i]], s[i + 1..], p);
    FilterAppend(s[..i], [s[i]], p);
    assert Filter([s[i]], p) == [s[i]];
    var before := Filter(s[..i], p);
    var k := |before|;
    assert Filter(s, p)[k] == s[i];
    forall j | 0 <= j < k ensures key(Filter(s, p)[j]) != key(s[i]) {
      assert Filter(s, p)[j] == before[j];
      assert before[j] in before;
      var m :| 0 <= m < i && s[..i][m] == before[j];
    }
  }

  /** `xs.every(x => x in ys)` */
  predicate IncludesAll<T(==)>(ys: seq<T>, xs: seq<T>)
  {
    forall i :: 0 <= i < |xs| ==> xs[i] in ys
  }

  /** `leq` is a total preorder: what `(a, b) => a.localeCompare(b) <= 0` is assumed to be. */
  ghost predicate TotalPreorder(leq: (string, string) -> bool)
  {
    && (forall a, b :: leq(a, b) || leq(b, a))
    && (forall a, b, c :: leq(a, b) && leq(b, c) ==> leq(a, c))
  }

  /** The keys of `s` are in non-decreasing `leq` order. */
  ghost predicate SortedBy<T>(s: seq<T>, key: T -> string, leq: (string, string) -> bool)
  {
    forall i, j :: 0 <= i < j < |s| ==> leq(key(s[i]), key(s[j]))
  }

  /** Insert `x` into `s` before the first element whose key is not below `x`'s. */
  function Insert<T>(x: T, s: seq<T>, key: T -> string, leq: (string, string) -> bool): (r: seq<T>)
    ensures multiset(r) == multiset(s) + multiset{x}
  {
    if |s| == 0 || leq(key(x), key(s[0])) then [x] + s
    else
      assert s == [s[0]] + s[1..];
      [s[0]] + Insert(x, s[1..], key, leq)
  }

  /** `s.sort((a, b) => compare(key(a), key(b)))`, as a stable insertion sort. */
  function SortBy<T>(s: seq<T>, key: T -> string, leq: (string, string) -> bool): (r: seq<T>)
    ensures multiset(r) == multiset(s)
    ensures |r| == |s|
  {
    if |s| == 0 then []
    else
      assert s == [s[0]] + s[1..];
      Insert(s[0], SortBy(s[1..], key, leq), key, leq)
  }

  lemma {:induction false} InsertSorted<T>(x: T, s: seq<T>, key: T -> string, leq: (string, string) -> bool)
    requires TotalPreorder(leq)
    requires SortedBy(s, key, leq)
    ensures SortedBy(Insert(x, s, key, leq), key, leq)
  {
    if |s| == 0 || leq(key(x), key(s[0])) {
    } else {
      assert leq(key(s[0]), key(x));
      InsertSorted(x, s[1..], key, leq);
      var t := Insert(x, s[1..], key, leq);
      assert forall y :: y in t ==> y == x || y in s[1..] by {
        assert forall y :: y in t ==> y in multiset(t);
      }
      forall j | 0 <= j < |t| ensures leq(key(s[0]), key(t[j])) {
        assert t[j] in t;
        if t[j] != x {
          var k :| 0 <= k < |s[1..]| && s[1..][k] == t[j];
          assert s[k + 1] == t[j];
        }
      }
    }
  }

  /** The sorted result is ordered by the key: the first half of the sort's promise. */
  lemma {:induction false} SortBySorted<T>(s: seq<T>, key: T -> string, leq: (string, string) -> bool)
    requires TotalPreorder(leq)
    ensures SortedBy(SortBy(s, key, leq), key, leq)
  {
    if |s| > 0 {
      SortBySorted(s[1..], key, leq);
      InsertSorted(s[0], SortBy(s[1..], key, leq), key, leq);
    }
  }
}
