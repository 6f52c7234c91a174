/** Sequence utilities shared by both engines: the LINQ `Where` filter and
    the facts about distinct lists that the Life theorems rest on. */
module Sequences {

  /** No element occurs twice. */
  predicate Distinct<T(==)>(s: seq<T>) {
    forall i, j :: 0 <= i < j < |s| ==> s[i] != s[j]
  }

  /** The set of elements of a sequence. */
  function ToSet<T>(s: seq<T>): set<T> {
    set x | x in s
  }

  /** `a` can be obtained from `b` by deleting elements, keeping the order. */
  predicate IsSubsequence<T(==)>(a: seq<T>, b: seq<T>)
    decreases |b|
  {
    if b == [] then a == []
    else
      || IsSubsequence(a, b[..|b| - 1])
      || (a != [] && a[|a| - 1] == b[|b| - 1] && IsSubsequence(a[..|a| - 1], b[..|b| - 1]))
  }

  /** `s.Where(p).ToList()`: the elements of `s` that satisfy `p`, in order. */
  function Filter<T(!new)>(s: seq<T>, p: T -> bool): (r: seq<T>)
    ensures |r| <= |s|
    ensures forall x :: x in r <==> x in s && p(x)
    decreases |s|
  {
    if s == [] then []
    else
      var init, last := Filter(s[..|s| - 1], p), s[|s| - 1];
      assert s == s[..|s| - 1] + [last];
      if p(last) then init + [last] else init
  }

  /** The filter keeps the order of `s`. */
  lemma {:induction false} FilterIsSubsequence<T(!new)>(s: seq<T>, p: T -> bool)
    ensures IsSubsequence(Filter(s, p), s)
    decreases |s|
  {
    if s != [] {
      var init, last := s[..|s| - 1], s[|s| - 1];
      FilterIsSubsequence(init, p);
      var r := Filter(init, p);
      if p(last) {
        assert (r + [last])[..|r|] == r;
      }
    }
  }

  /** The filter keeps each kept element as often as it occurs in `s`. */
  lemma {:induction false} FilterMultiset<T(!new)>(s: seq<T>, p: T -> bool)
    ensures forall x :: multiset(Filter(s, p))[x] == if p(x) then multiset(s)[x] else 0
    decreases |s|
  {
    if s != [] {
      var init, last := s[..|s| - 1], s[|s| - 1];
      FilterMultiset(init, p);
      assert multiset(s) == multiset(init) + multiset{last} by {
        assert s == init + [last];
      }
      var r := Filter(init, p);
      if p(last) {
        assert multiset(r + [last]) == multiset(r) + multiset{last};
      }
    }
  }

  /** The filter keeps a distinct list distinct. */
  lemma {:induction false} FilterDistinct<T(!new)>(s: seq<T>, p: T -> bool)
    requires Distinct(s)
    ensures Distinct(Filter(s, p))
    decreases |s|
  {
    if s != [] {
      var init, last := s[..|s| - 1], s[|s| - 1];
      assert Distinct(init);
      FilterDistinct(init, p);
      assert last !in init by {
        assert s == init + [last];
      }
    }
  }

  /** The three facts above together. */
  lemma FilterFacts<T(!new)>(s: seq<T>, p: T -> bool)
    ensures IsSubsequence(Filter(s, p), s)
    ensures forall x :: multiset(Filter(s, p))[x] == if p(x) then multiset(s)[x] else 0
    ensures Distinct(s) ==> Distinct(Filter(s, p))
  {
    FilterIsSubsequence(s, p);
    FilterMultiset(s, p);
    if Distinct(s) {
      FilterDistinct(s, p);
    }
  }

  /** Filtering by two predicates that agree on every element gives the same list. */
  lemma {:induction false} FilterCongruent<T(!new)>(s: seq<T>, p: T -> bool, q: T -> bool)
    requires forall x :: x in s ==> p(x) == q(x)
    ensures Filter(s, p) == Filter(s, q)
    decreases |s|
  {
    if s != [] {
      FilterCongruent(s[..|s| - 1], p, q);
    }
  }

  /** Splitting off the last element of a distinct list: the set of the rest,
      which does not hold it, plus that element. */
  lemma ToSetSnoc<T>(s: seq<T>)
    requires s != [] && Distinct(s)
    ensures Distinct(s[..|s| - 1])
    ensures ToSet(s) == ToSet(s[..|s| - 1]) + {s[|s| - 1]}
    ensures s[|s| - 1] !in ToSet(s[..|s| - 1])
  {
  }

  /** A distinct list has as many elements as its set. */
  lemma {:induction false} DistinctCardinality<T>(s: seq<T>)
    requires Distinct(s)
    ensures |ToSet(s)| == |s|
    decreases |s|
  {
    if s != [] {
      ToSetSnoc(s);
      DistinctCardinality(s[..|s| - 1]);
    }
  }

  /** How many entries of `s` lie in `t`, each counted as often as it occurs. */
  function CountIn<T>(s: seq<T>, t: set<T>): (n: nat)
    ensures n <= |s|
    decreases |s|
  {
    if s == [] then 0
    else CountIn(s[..|s| - 1], t) + (if s[|s| - 1] in t then 1 else 0)
  }

  /** Over a list without repeats, the count is the size of the set of its
      entries that lie in `t`. */
  lemma {:induction false} CountInDistinct<T>(s: seq<T>, t: set<T>)
    requires Distinct(s)
    ensures CountIn(s, t) == |ToSet(s) * t|
    decreases |s|
  {
    if s != [] {
      var init, last := s[..|s| - 1], s[|s| - 1];
      ToSetSnoc(s);
      CountInDistinct(init, t);
      if last in t {
        assert ToSet(s) * t == (ToSet(init) * t) + {last};
      } else {
        assert ToSet(s) * t == ToSet(init) * t;
      }
    }
  }

  /** Concatenating two distinct lists with no common element gives a distinct list. */
  lemma DistinctConcat<T>(a: seq<T>, b: seq<T>)
    requires Distinct(a) && Distinct(b)
    requires forall x :: x in a ==> x !in b
    ensures Distinct(a + b)
  {
    forall i, j | 0 <= i < j < |a + b|
      ensures (a + b)[i] != (a + b)[j]
    {
      if i < |a| && |a| <= j {
        assert (a + b)[i] in a && (a + b)[j] in b;
      }
    }
  }
}
