/** Sequence and table helpers shared by the store queries, the services and the browser list. */
module Collections {

  /** `r` is `s` with some elements left out and the rest in their original order. */
  ghost predicate IsSubsequence<T>(r: seq<T>, s: seq<T>)
    decreases |s|
  {
    r == [] || (s != [] && if r[0] == s[0] then IsSubsequence(r[1..], s[1..]) else IsSubsequence(r, s[1..]))
  }

  /**
   * The elements of `s` that satisfy `p`, in order: the shape of a derived query's WHERE clause,
   * of JPQL filters and of Array.prototype.filter.
   */
  function Filter<T>(s: seq<T>, p: T -> bool): (r: seq<T>)
    ensures |r| <= |s|
    ensures forall x :: x in r ==> x in s && p(x)
    ensures forall x :: x in s && p(x) ==> x in r
    ensures IsSubsequence(r, s)
  {
    if s == [] then []
    else if p(s[0]) then [s[0]] + Filter(s[1..], p)
    else Filter(s[1..], p)
  }

  /** A filter whose predicate holds of every element changes nothing. */
  lemma {:induction false} FilterKeepsAll<T>(s: seq<T>, p: T -> bool)
    requires forall x :: x in s ==> p(x)
    ensures Filter(s, p) == s
  {
    if s != [] {
      FilterKeepsAll(s[1..], p);
    }
  }

  /** Filtering by `p` and then by `q` is filtering by both at once. */
  lemma {:induction false} FilterFilter<T>(s: seq<T>, p: T -> bool, q: T -> bool)
    ensures Filter(Filter(s, p), q) == Filter(s, x => p(x) && q(x))
  {
    if s != [] {
      FilterFilter(s[1..], p, q);
    }
  }

  /** A filter whose predicate holds of no element keeps nothing. */
  lemma {:induction false} FilterKeepsNone<T>(s: seq<T>, p: T -> bool)
    requires forall x :: x in s ==> !p(x)
    ensures Filter(s, p) == []
  {
    if s != [] {
      FilterKeepsNone(s[1..], p);
    }
  }

  /** Filtering a concatenation filters each part. */
  lemma {:induction false} FilterAppend<T>(s: seq<T>, t: seq<T>, p: T -> bool)
    ensures Filter(s + t, p) == Filter(s, p) + Filter(t, p)
  {
    if s == [] {
      assert s + t == t;
    } else {
      var (x, rest) := (s[0], s[1..]);
      var head := if p(x) then [x] else [];
      assert s == [x] + rest;
      calc {
        Filter(s + t, p);
        { assert s + t == [x] + (rest + t); }
        Filter([x] + (rest + t), p);
        { FilterCons(x, rest + t, p); }
        head + Filter(rest + t, p);
        { FilterAppend(rest, t, p); }
        head + (Filter(rest, p) + Filter(t, p));
        (head + Filter(rest, p)) + Filter(t, p);
        { FilterCons(x, rest, p); }
        Filter(s, p) + Filter(t, p);
      }
    }
  }

  /** Filtering a sequence with a first element decides that element, then filters the rest. */
  lemma FilterCons<T>(x: T, s: seq<T>, p: T -> bool)
    ensures Filter([x] + s, p) == (if p(x) then [x] else []) + Filter(s, p)
  {
    assert ([x] + s)[0] == x && ([x] + s)[1..] == s;
  }

  /** Putting the same element in front of two sequences keeps a relation between their filters. */
  lemma FilterConsBoth<T>(x: T, u: seq<T>, v: seq<T>, w: seq<T>, p: T -> bool)
    requires Filter(u, p) == Filter(v, p) + w
    ensures Filter([x] + u, p) == Filter([x] + v, p) + w
  {
    var head := if p(x) then [x] else [];
    FilterCons(x, u, p);
    FilterCons(x, v, p);
    PrependKeepsSuffix(head, Filter(u, p), Filter(v, p), w);
  }

  lemma PrependKeepsSuffix<T>(h: seq<T>, a: seq<T>, b: seq<T>, w: seq<T>)
    requires a == b + w
    ensures h + a == (h + b) + w
  {
  }

  /** The number of elements of `s` that satisfy `p`: the shape of a derived countBy query. */
  function Count<T>(s: seq<T>, p: T -> bool): (n: nat)
    ensures n <= |s|
    ensures n == 0 <==> forall i :: 0 <= i < |s| ==> !p(s[i])
  {
    if s == [] then 0 else (if p(s[0]) then 1 else 0) + Count(s[1..], p)
  }

  /** Counting the matches is taking the length of the filtered sequence. */
  lemma {:induction false} CountIsFilterLength<T>(s: seq<T>, p: T -> bool)
    ensures Count(s, p) == |Filter(s, p)|
  {
    if s != [] {
      CountIsFilterLength(s[1..], p);
    }
  }

  /** The values of a table keyed by integers, read in ascending key order from `lo` up to `hi`. */
  function Rows<T>(m: map<int, T>, lo: int, hi: int): (r: seq<T>)
    decreases hi - lo
    ensures |r| <= if lo < hi then hi - lo else 0
    ensures forall x :: x in r ==> exists k :: lo <= k < hi && k in m && m[k] == x
    ensures forall k :: lo <= k < hi && k in m ==> m[k] in r
  {
    if lo >= hi then []
    else (if lo in m then [m[lo]] else []) + Rows(m, lo + 1, hi)
  }

  /** When every value carries its own key, the rows come out strictly ascending by key. */
  lemma {:induction false} RowsAscending<T>(m: map<int, T>, lo: int, hi: int, key: T -> int)
    requires forall k :: k in m ==> key(m[k]) == k
    ensures forall x :: x in Rows(m, lo, hi) ==> lo <= key(x) < hi
    ensures forall i, j :: 0 <= i < j < |Rows(m, lo, hi)| ==> key(Rows(m, lo, hi)[i]) < key(Rows(m, lo, hi)[j])
    decreases hi - lo
  {
    if lo < hi {
      RowsAscending(m, lo + 1, hi, key);
      var rest := Rows(m, lo + 1, hi);
      if lo in m {
        assert Rows(m, lo, hi) == [m[lo]] + rest;
        forall i, j | 0 <= i < j < |Rows(m, lo, hi)|
          ensures key(Rows(m, lo, hi)[i]) < key(Rows(m, lo, hi)[j])
        {
          assert Rows(m, lo, hi)[j] == rest[j - 1];
          if i > 0 {
            assert Rows(m, lo, hi)[i] == rest[i - 1];
          } else {
            assert rest[j - 1] in rest;
          }
        }
      } else {
        assert Rows(m, lo, hi) == rest;
      }
    }
  }

  /** The rows of a table whose keys all lie in [lo, hi) are as many as its entries. */
  lemma {:induction false} RowsCount<T>(m: map<int, T>, lo: int, hi: int)
    requires forall k :: k in m ==> lo <= k < hi
    ensures |Rows(m, lo, hi)| == |m|
    decreases hi - lo
  {
    if lo >= hi {
      assert m.Keys == {};
    } else if lo in m {
      var rest := m - {lo};
      RemoveOne(m, lo);
      RowsCount(rest, lo + 1, hi);
      RowsAgree(m, rest, lo + 1, hi);
      assert Rows(m, lo, hi) == [m[lo]] + Rows(m, lo + 1, hi);
    } else {
      RowsCount(m, lo + 1, hi);
      assert Rows(m, lo, hi) == Rows(m, lo + 1, hi);
    }
  }

  /** Removing a present key removes one entry. */
  lemma RemoveOne<T>(m: map<int, T>, k: int)
    requires k in m
    ensures |m - {k}| == |m| - 1
  {
    assert (m - {k}).Keys == m.Keys - {k};
  }

  /** Two tables that agree on every key in [lo, hi) have the same rows there. */
  lemma {:induction false} RowsAgree<T>(m: map<int, T>, n: map<int, T>, lo: int, hi: int)
    requires forall k :: lo <= k < hi ==> (k in m <==> k in n) && (k in m ==> m[k] == n[k])
    ensures Rows(m, lo, hi) == Rows(n, lo, hi)
    decreases hi - lo
  {
    if lo < hi {
      RowsAgree(m, n, lo + 1, hi);
    }
  }
}
