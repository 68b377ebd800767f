/**
  Order-preserving filtering and counting over sequences: filtering an array
  and the length of the filtered array, and the facts about them
  that the naming layer's proofs rely on.
 */
module Seqs {

  /** The elements of `s` that satisfy `p`, in their original order. */
  function Filter<T>(s: seq<T>, p: T -> bool): (r: seq<T>)
    ensures |r| <= |s|
  {
    if s == [] then [] else (if p(s[0]) then [s[0]] else []) + Filter(s[1..], p)
  }

  /** Everything the filter keeps satisfies `p`. */
  lemma {:induction false} FilterAll<T>(s: seq<T>, p: T -> bool)
    ensures forall i :: 0 <= i < |Filter(s, p)| ==> p(Filter(s, p)[i])
  {
    if s != [] {
      FilterAll(s[1..], p);
      var head := if p(s[0]) then [s[0]] else [];
      assert Filter(s, p) == head + Filter(s[1..], p);
    }
  }

  /** An element that satisfies `p` survives the filter. */
  lemma {:induction false} FilterKeeps<T>(s: seq<T>, p: T -> bool, i: nat)
    requires i < |s| && p(s[i])
    ensures s[i] in Filter(s, p)
  {
    if i > 0 {
      FilterKeeps(s[1..], p, i - 1);
    }
  }

  /** Every element of the filter comes from `s`. */
  lemma {:induction false} FilterMember<T>(s: seq<T>, p: T -> bool, x: T)
    requires x in Filter(s, p)
    ensures x in s && p(x)
  {
    FilterAll(s, p);
    if s[0] != x {
      FilterMember(s[1..], p, x);
    }
  }

  /** The concatenation of a sequence of sequences, in order. */
  function Concat<T>(ss: seq<seq<T>>): seq<T> {
    if ss == [] then [] else ss[0] + Concat(ss[1..])
  }

  /** How many elements of `s` satisfy `p`. */
  function Count<T>(s: seq<T>, p: T -> bool): nat {
    |Filter(s, p)|
  }

  /** Filtering distributes over concatenation; in particular, filtering a
      sequence grown by one element at the end grows the result by that
      element or not at all. */
  lemma {:induction false} FilterAppend<T>(a: seq<T>, b: seq<T>, p: T -> bool)
    ensures Filter(a + b, p) == Filter(a, p) + Filter(b, p)
  {
    if a == [] {
      assert a + b == b;
    } else {
      var head := if p(a[0]) then [a[0]] else [];
      assert (a + b)[1..] == a[1..] + b;
      FilterAppend(a[1..], b, p);
      calc {
        Filter(a + b, p);
        head + Filter(a[1..] + b, p);
        head + (Filter(a[1..], p) + Filter(b, p));
        (head + Filter(a[1..], p)) + Filter(b, p);
      }
    }
  }

  lemma {:induction false} FilterKeepsAll<T>(s: seq<T>, p: T -> bool)
    requires forall i :: 0 <= i < |s| ==> p(s[i])
    ensures Filter(s, p) == s
  {
    if s != [] {
      FilterKeepsAll(s[1..], p);
    }
  }

  lemma {:induction false} FilterDropsAll<T>(s: seq<T>, p: T -> bool)
    requires forall i :: 0 <= i < |s| ==> !p(s[i])
    ensures Filter(s, p) == []
  {
    if s != [] {
      FilterDropsAll(s[1..], p);
    }
  }

  /** Filtering a run that `p` keeps, then a run that `p` drops, then the rest. */
  lemma FilterAcross<T>(a: seq<T>, b: seq<T>, c: seq<T>, p: T -> bool)
    requires forall i :: 0 <= i < |a| ==> p(a[i])
    requires forall i :: 0 <= i < |b| ==> !p(b[i])
    ensures Filter(a + b + c, p) == a + Filter(c, p)
  {
    FilterKeepsAll(a, p);
    FilterDropsAll(b, p);
    FilterAppend(a, b, p);
    assert Filter(a + b, p) == a by {
      assert a + [] == a;
    }
    FilterAppend(a + b, c, p);
  }

  /** Two predicates that agree on the elements of `s` filter it alike. */
  lemma {:induction false} FilterCongruent<T>(s: seq<T>, p: T -> bool, q: T -> bool)
    requires forall i :: 0 <= i < |s| ==> p(s[i]) == q(s[i])
    ensures Filter(s, p) == Filter(s, q)
  {
    if s != [] {
      FilterCongruent(s[1..], p, q);
    }
  }

  /** Filtering twice is filtering once by the conjunction. */
  lemma {:induction false} FilterFilter<T>(s: seq<T>, p: T -> bool, q: T -> bool, pq: T -> bool)
    requires forall i :: 0 <= i < |s| ==> pq(s[i]) == (p(s[i]) && q(s[i]))
    ensures Filter(Filter(s, p), q) == Filter(s, pq)
  {
    if s != [] {
      var rest := Filter(s[1..], p);
      FilterFilter(s[1..], p, q, pq);
      assert pq(s[0]) == (p(s[0]) && q(s[0]));
      if p(s[0]) {
        FilterAppend([s[0]], rest, q);
        assert Filter(s, p) == [s[0]] + rest;
      } else {
        assert Filter(s, p) == rest;
      }
    }
  }

  /** The multiset of a filter keeps exactly the occurrences that satisfy `p`. */
  lemma {:induction false} FilterMultiset<T>(s: seq<T>, p: T -> bool)
    ensures forall x :: multiset(Filter(s, p))[x] == if p(x) then multiset(s)[x] else 0
  {
    if s != [] {
      FilterMultiset(s[1..], p);
      assert s == [s[0]] + s[1..];
    }
  }

  /** A count depends only on the multiset of the sequence, not on its order. */
  lemma {:induction false} CountPermutation<T>(a: seq<T>, b: seq<T>, p: T -> bool)
    requires multiset(a) == multiset(b)
    ensures Count(a, p) == Count(b, p)
    decreases |a|
  {
    if a == [] {
      assert |b| == |multiset(b)| == 0;
    } else {
      var x := a[0];
      assert a == [x] + a[1..];
      assert x in multiset(b);
      var j :| 0 <= j < |b| && b[j] == x;
      var rest := b[..j] + b[j + 1..];
      MultisetRemove(b, j);
      assert multiset(a[1..]) == multiset(a) - multiset{x};
      CountPermutation(a[1..], rest, p);
      CountRemove(b, j, p);
    }
  }

  /** Removing the element at `j` removes one occurrence of it. */
  lemma MultisetRemove<T>(b: seq<T>, j: nat)
    requires j < |b|
    ensures multiset(b[..j] + b[j + 1..]) == multiset(b) - multiset{b[j]}
  {
    assert b == b[..j] + [b[j]] + b[j + 1..];
  }

  /** Removing the element at `j` lowers the count by one exactly when the
      element satisfies `p`. */
  lemma CountRemove<T>(b: seq<T>, j: nat, p: T -> bool)
    requires j < |b|
    ensures Count(b, p) == Count(b[..j] + b[j + 1..], p) + if p(b[j]) then 1 else 0
  {
    assert b == b[..j] + [b[j]] + b[j + 1..];
    FilterAppend(b[..j] + [b[j]], b[j + 1..], p);
    FilterAppend(b[..j], [b[j]], p);
    FilterAppend(b[..j], b[j + 1..], p);
  }

  /** Filtering by two disjoint predicates splits the filter by their
      disjunction. */
  lemma {:induction false} FilterDisjointUnion<T>(s: seq<T>, p: T -> bool, q: T -> bool, pq: T -> bool)
    requires forall i :: 0 <= i < |s| ==> pq(s[i]) == (p(s[i]) || q(s[i]))
    requires forall i :: 0 <= i < |s| ==> !(p(s[i]) && q(s[i]))
    ensures multiset(Filter(s, p)) + multiset(Filter(s, q)) == multiset(Filter(s, pq))
  {
    if s != [] {
      FilterDisjointUnion(s[1..], p, q, pq);
    }
  }

  /** Two disjoint predicates count, together, what their disjunction
      counts. */
  lemma {:induction false} CountDisjointUnion<T>(s: seq<T>, p: T -> bool, q: T -> bool, pq: T -> bool)
    requires forall i :: 0 <= i < |s| ==> pq(s[i]) == (p(s[i]) || q(s[i]))
    requires forall i :: 0 <= i < |s| ==> !(p(s[i]) && q(s[i]))
    ensures Count(s, p) + Count(s, q) == Count(s, pq)
  {
    if s != [] {
      CountDisjointUnion(s[1..], p, q, pq);
      assert pq(s[0]) == (p(s[0]) || q(s[0])) && !(p(s[0]) && q(s[0]));
    }
  }

  /** A weaker predicate counts at least as many elements. */
  lemma {:induction false} CountMonotone<T>(s: seq<T>, p: T -> bool, q: T -> bool)
    requires forall i :: 0 <= i < |s| ==> p(s[i]) ==> q(s[i])
    ensures Count(s, p) <= Count(s, q)
  {
    if s != [] {
      CountMonotone(s[1..], p, q);
    }
  }

  /** Two distinct positions that satisfy `p` make the count at least two. */
  lemma {:induction false} CountAtLeastTwo<T>(s: seq<T>, p: T -> bool, i: nat, j: nat)
    requires i < |s| && j < |s| && i != j
    requires p(s[i]) && p(s[j])
    ensures Count(s, p) >= 2
  {
    if i == 0 {
      FilterKeeps(s[1..], p, j - 1);
    } else if j == 0 {
      FilterKeeps(s[1..], p, i - 1);
    } else {
      CountAtLeastTwo(s[1..], p, i - 1, j - 1);
    }
  }

  /** The elements of `s` are pairwise distinct. */
  predicate Distinct<T(==)>(s: seq<T>) {
    forall i, j :: 0 <= i < j < |s| ==> s[i] != s[j]
  }

  /** A duplicate-free sequence has as many elements as its set. */
  lemma {:induction false} DistinctCardinality<T>(s: seq<T>)
    requires Distinct(s)
    ensures |set x | x in s| == |s|
  {
    if s != [] {
      DistinctCardinality(s[1..]);
      assert (set x | x in s) == {s[0]} + (set x | x in s[1..]);
      assert s[0] !in (set x | x in s[1..]);
    }
  }

  /** `map`: `f` applied to every element, in order. */
  function Map<A, B>(s: seq<A>, f: A --> B): (r: seq<B>)
    requires forall i :: 0 <= i < |s| ==> f.requires(s[i])
    ensures |r| == |s| && forall i :: 0 <= i < |s| ==> r[i] == f(s[i])
  {
    seq(|s|, i requires 0 <= i < |s| => f(s[i]))
  }

  /** Mapping a prefix one element longer appends that element's image. */
  lemma MapSnoc<A, B>(s: seq<A>, i: nat, f: A --> B)
    requires i < |s| && forall j :: 0 <= j <= i ==> f.requires(s[j])
    ensures Map(s[..i + 1], f) == Map(s[..i], f) + [f(s[i])]
  {
  }

  /** Mapping a sequence with one more element at the end. */
  lemma MapAppend<A, B>(s: seq<A>, x: A, f: A --> B)
    requires forall i :: 0 <= i < |s| ==> f.requires(s[i])
    requires f.requires(x)
    ensures Map(s + [x], f) == Map(s, f) + [f(x)]
  {
  }

  /** Functions that agree on every element map a sequence alike. */
  lemma MapCongruent<A, B>(s: seq<A>, f: A --> B, g: A --> B)
    requires forall i :: 0 <= i < |s| ==> f.requires(s[i]) && g.requires(s[i]) && f(s[i]) == g(s[i])
    ensures Map(s, f) == Map(s, g)
  {
  }
}
