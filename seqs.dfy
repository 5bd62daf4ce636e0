/** Sequence combinators used by the scrapers' `map`, `filter`, `flatMap` and `concat`. */
module Seqs {

  /** `s.map(f)`, defined from the end so that a loop extending a prefix follows it step by step. */
  function Map<A, B>(f: A -> B, s: seq<A>): (r: seq<B>)
    ensures |r| == |s|
    ensures forall i :: 0 <= i < |s| ==> r[i] == f(s[i])
  {
    if s == [] then [] else Map(f, s[..|s| - 1]) + [f(s[|s| - 1])]
  }

  /** `s.filter(p)`: the elements satisfying `p`, in their original order. */
  function Filter<T(!new)>(p: T -> bool, s: seq<T>): (r: seq<T>)
    ensures |r| <= |s|
    ensures forall x :: x in r <==> x in s && p(x)
  {
    if s == [] then []
    else
      var init := s[..|s| - 1];
      assert s == init + [s[|s| - 1]];
      Filter(p, init) + if p(s[|s| - 1]) then [s[|s| - 1]] else []
  }

  /** `s.flatMap(f)`, or a loop concatenating `f` of each element; defined from the end. */
  function FlatMap<A, B>(f: A -> seq<B>, s: seq<A>): seq<B> {
    if s == [] then [] else FlatMap(f, s[..|s| - 1]) + f(s[|s| - 1])
  }

  /** Taking one more element appends its image. */
  lemma FlatMapSnoc<A, B>(f: A -> seq<B>, s: seq<A>, i: nat)
    requires i < |s|
    ensures FlatMap(f, s[..i + 1]) == FlatMap(f, s[..i]) + f(s[i])
  {
    assert s[..i + 1][..i] == s[..i];
  }

  lemma FlatMapSingle<A, B>(f: A -> seq<B>, a: A)
    ensures FlatMap(f, [a]) == f(a)
  {
    assert [a][..0] == [];
  }

  /** `flatMap` distributes over concatenation. */
  lemma {:induction false} FlatMapAppend<A, B>(f: A -> seq<B>, a: seq<A>, b: seq<A>)
    ensures FlatMap(f, a + b) == FlatMap(f, a) + FlatMap(f, b)
  {
    if b == [] {
      assert a + b == a;
    } else {
      var init, last := b[..|b| - 1], b[|b| - 1];
      FlatMapAppend(f, a, init);
      assert (a + b)[..|a + b| - 1] == a + init;
      assert (a + b)[|a + b| - 1] == last;
      calc {
        FlatMap(f, a + b);
        FlatMap(f, a + init) + f(last);
        (FlatMap(f, a) + FlatMap(f, init)) + f(last);
        FlatMap(f, a) + (FlatMap(f, init) + f(last));
        FlatMap(f, a) + FlatMap(f, b);
      }
    }
  }

  /** Every element of a `flatMap` comes from the image of some element. */
  lemma {:induction false} FlatMapMember<A, B>(f: A -> seq<B>, s: seq<A>, x: B)
    requires x in FlatMap(f, s)
    ensures exists k :: 0 <= k < |s| && x in f(s[k])
  {
    var init := s[..|s| - 1];
    if x !in f(s[|s| - 1]) {
      FlatMapMember(f, init, x);
      var k :| 0 <= k < |init| && x in f(init[k]);
      assert init[k] == s[k];
    }
  }

  /** Filtering distributes over concatenation: order is kept and earlier results are untouched. */
  lemma {:induction false} FilterAppend<T(!new)>(p: T -> bool, a: seq<T>, b: seq<T>)
    ensures Filter(p, a + b) == Filter(p, a) + Filter(p, b)
  {
    if b != [] {
      var b' := b[..|b| - 1];
      assert (a + b)[..|a + b| - 1] == a + b';
      FilterAppend(p, a, b');
    } else {
      assert a + b == a;
    }
  }

  /** A filter whose predicate holds everywhere keeps everything. */
  lemma {:induction false} FilterKeepsAll<T(!new)>(p: T -> bool, s: seq<T>)
    requires forall x :: x in s ==> p(x)
    ensures Filter(p, s) == s
  {
    if s != [] {
      var init, last := s[..|s| - 1], s[|s| - 1];
      assert s == init + [last];
      assert p(last);
      forall x | x in init
        ensures p(x)
      {
        assert x in s;
      }
      FilterKeepsAll(p, init);
    }
  }

  lemma {:induction false} MapAppend<A, B>(f: A -> B, a: seq<A>, b: seq<A>)
    ensures Map(f, a + b) == Map(f, a) + Map(f, b)
  {
  }

  /** Filtering keeps every occurrence of an element that satisfies `p` and none of the others. */
  lemma {:induction false} FilterCounts<T(!new)>(p: T -> bool, s: seq<T>, x: T)
    ensures multiset(Filter(p, s))[x] == if p(x) then multiset(s)[x] else 0
  {
    if s != [] {
      var init := s[..|s| - 1];
      assert s == init + [s[|s| - 1]];
      FilterCounts(p, init, x);
    }
  }

  /** A prefix of a suffix is a slice. */
  lemma PrefixOfSuffix<T>(s: seq<T>, i: nat, n: nat)
    requires i + n <= |s|
    ensures s[i..][..n] == s[i..i + n]
  {
  }

  /** Filtering one element keeps it exactly when it satisfies the predicate. */
  lemma FilterSingle<T(!new)>(p: T -> bool, x: T)
    ensures Filter(p, [x]) == if p(x) then [x] else []
  {
    assert [x][..0] == [];
  }

  /** Two filters in a row are one filter by the conjunction of their predicates. */
  lemma {:induction false} FilterFilter<T(!new)>(p: T -> bool, q: T -> bool, both: T -> bool, s: seq<T>)
    requires forall x :: both(x) == (p(x) && q(x))
    ensures Filter(q, Filter(p, s)) == Filter(both, s)
  {
    if s != [] {
      var init, last := s[..|s| - 1], s[|s| - 1];
      FilterFilter(p, q, both, init);
      var kept := if p(last) then [last] else [];
      FilterAppend(q, Filter(p, init), kept);
      if p(last) {
        FilterSingle(q, last);
      }
    }
  }

  /** The loop `for (x of items) collected.push(f(x))`: every image appended, in order. */
  method AppendMapped<A, B>(f: A -> B, items: seq<A>, collected: seq<B>) returns (updated: seq<B>)
    ensures updated == collected + Map(f, items)
  {
    updated := collected;
    for j := 0 to |items|
      invariant updated == collected + Map(f, items[..j])
    {
      assert items[..j + 1][..j] == items[..j];
      updated := updated + [f(items[j])];
    }
    assert items[..|items|] == items;
  }
}
