/** `Array.prototype.filter` on sequences, and the subsequence relation it
    establishes. */
module Seqs {

  /** `a` is obtained from `b` by deleting elements, keeping the order. */
  predicate IsSubsequence<T(==)>(a: seq<T>, b: seq<T>) {
    a == [] || (b != [] && ((a[0] == b[0] && IsSubsequence(a[1..], b[1..])) || IsSubsequence(a, b[1..])))
  }

  /** The elements of `s` that satisfy `f`, in their order in `s`. */
  function Filter<T(==)>(s: seq<T>, f: T -> bool): (r: seq<T>)
    ensures |r| <= |s|
    ensures forall x :: x in r ==> x in s && f(x)
    ensures forall x :: x in s && f(x) ==> x in r
  {
    if s == [] then []
    else
      assert s == [s[0]] + s[1..];
      (if f(s[0]) then [s[0]] else []) + Filter(s[1..], f)
  }

  /** What `filter` returns is a subsequence of its input. */
  lemma {:induction false} FilterIsSubsequence<T>(s: seq<T>, f: T -> bool)
    ensures IsSubsequence(Filter(s, f), s)
  {
    if s != [] {
      var r, t := Filter(s, f), Filter(s[1..], f);
      FilterIsSubsequence(s[1..], f);
      if f(s[0]) {
        assert r == [s[0]] + t;
        assert r[0] == s[0] && r[1..] == t;
      } else {
        assert r == t;
      }
    }
  }

  /** `filter` keeps every occurrence of a passing element and none of a failing one. */
  lemma {:induction false} FilterMultiset<T>(s: seq<T>, f: T -> bool, x: T)
    ensures multiset(Filter(s, f))[x] == if f(x) then multiset(s)[x] else 0
  {
    if s != [] {
      FilterMultiset(s[1..], f, x);
      assert s == [s[0]] + s[1..];
    }
  }

  /** Filtering one element. */
  lemma FilterSingleton<T>(x: T, f: T -> bool)
    ensures Filter([x], f) == if f(x) then [x] else []
  {
    assert [x][1..] == [];
  }

  /** Filtering a sequence whose first element is `x`. */
  lemma FilterCons<T>(x: T, s: seq<T>, f: T -> bool)
    ensures Filter([x] + s, f) == (if f(x) then [x] else []) + Filter(s, f)
  {
    assert ([x] + s)[0] == x && ([x] + s)[1..] == s;
  }

  /** Filtering a concatenation filters each part. */
  lemma {:induction false} FilterConcat<T>(a: seq<T>, b: seq<T>, f: T -> bool)
    ensures Filter(a + b, f) == Filter(a, f) + Filter(b, f)
  {
    if a != [] {
      var x, t := a[0], a[1..];
      var head := if f(x) then [x] else [];
      calc {
        Filter(a + b, f);
      == { assert a + b == [x] + (t + b); FilterCons(x, t + b, f); }
        head + Filter(t + b, f);
      == { FilterConcat(t, b, f); }
        head + (Filter(t, f) + Filter(b, f));
      ==
        (head + Filter(t, f)) + Filter(b, f);
      == { assert a == [x] + t; FilterCons(x, t, f); }
        Filter(a, f) + Filter(b, f);
      }
    } else {
      assert a + b == b;
    }
  }

  /** A filter that every element passes keeps the whole sequence. */
  lemma {:induction false} FilterKeepsAll<T>(s: seq<T>, f: T -> bool)
    requires forall i :: 0 <= i < |s| ==> f(s[i])
    ensures Filter(s, f) == s
  {
    if s != [] {
      FilterKeepsAll(s[1..], f);
    }
  }

  /** Filtering by `f` and then by `g` is filtering once by their conjunction `h`. */
  lemma {:induction false} FilterTwice<T>(s: seq<T>, f: T -> bool, g: T -> bool, h: T -> bool)
    requires forall x :: h(x) == (f(x) && g(x))
    ensures Filter(Filter(s, f), g) == Filter(s, h)
  {
    if s != [] {
      var x, t := s[0], Filter(s[1..], f);
      FilterTwice(s[1..], f, g, h);
      assert h(x) == (f(x) && g(x));
      if f(x) {
        var u := [x] + t;
        assert Filter(s, f) == u;
        assert u[0] == x && u[1..] == t;
        assert Filter(u, g) == (if g(x) then [x] else []) + Filter(t, g);
      } else {
        assert Filter(s, f) == t;
      }
    }
  }

  /** Elements that pass exactly one of `f` and `g` split `s` by length. */
  lemma {:induction false} FilterComplement<T>(s: seq<T>, f: T -> bool, g: T -> bool)
    requires forall x :: g(x) == !f(x)
    ensures |Filter(s, f)| + |Filter(s, g)| == |s|
  {
    if s != [] {
      FilterComplement(s[1..], f, g);
    }
  }
}
