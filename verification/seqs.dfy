/** Sequence notions shared by the stores and the channel browser:
    the element set, duplicate-freedom, order-preserving subsequences and
    `Array.prototype.filter`. */
module Seqs {

  function Elems<T>(s: seq<T>): set<T> {
    set x | x in s
  }

  lemma ElemsEmpty<T>(s: seq<T>)
    ensures Elems(s) == {} <==> s == []
  {
    if s != [] {
      assert s[0] in Elems(s);
    }
  }

  lemma IndexPastPrefix<T>(p: seq<T>, t: seq<T>, k: int)
    requires |p| <= k < |p| + |t|
    ensures (p + t)[k] == t[k - |p|]
  {
  }

  lemma TailOfAppend<T>(a: seq<T>, b: seq<T>)
    requires a != []
    ensures (a + b)[0] == a[0] && (a + b)[1..] == a[1..] + b
  {
  }

  /** One step of `Filter`: the head is kept or dropped, then the tail. */
  lemma FilterStep<T(!new)>(s: seq<T>, p: T -> bool)
    requires s != []
    ensures Filter(s, p) == if p(s[0]) then [s[0]] + Filter(s[1..], p) else Filter(s[1..], p)
  {
  }

  /** Filtering distributes over concatenation. */
  lemma {:induction false} FilterAppend<T(!new)>(a: seq<T>, b: seq<T>, p: T -> bool)
    ensures Filter(a + b, p) == Filter(a, p) + Filter(b, p)
    decreases |a|
  {
    if a != [] {
      FilterAppend(a[1..], b, p);
      FilterAppendStep(a, b, p);
    } else {
      FilterAppendNil(a, b, p);
    }
  }

  lemma FilterAppendNil<T(!new)>(a: seq<T>, b: seq<T>, p: T -> bool)
    requires a == []
    ensures Filter(a + b, p) == Filter(a, p) + Filter(b, p)
  {
    assert a + b == b;
    assert Filter(a, p) == [];
  }

  lemma FilterAppendStep<T(!new)>(a: seq<T>, b: seq<T>, p: T -> bool)
    requires a != []
    requires Filter(a[1..] + b, p) == Filter(a[1..], p) + Filter(b, p)
    ensures Filter(a + b, p) == Filter(a, p) + Filter(b, p)
  {
    var x, rest, ab := a[0], a[1..], a + b;
    TailOfAppend(a, b);
    FilterStep(ab, p);
    FilterStep(a, p);
    if p(x) {
      AppendAssoc([x], Filter(rest, p), Filter(b, p));
    }
  }

  /** A kept element lands right after what the elements before it leave. */
  lemma FilterAt<T(!new)>(a: seq<T>, x: T, b: seq<T>, p: T -> bool)
    requires p(x)
    ensures |Filter(a, p)| < |Filter(a + [x] + b, p)|
    ensures Filter(a + [x] + b, p)[|Filter(a, p)|] == x
  {
    FilterAppend(a + [x], b, p);
    FilterAppend(a, [x], p);
    FilterStep([x], p);
    assert [x][1..] == [];
  }

  lemma ConsIndex<T>(x: T, rest: seq<T>)
    ensures |[x] + rest| == |rest| + 1 && ([x] + rest)[0] == x
    ensures forall k :: 1 <= k <= |rest| ==> ([x] + rest)[k] == rest[k - 1]
  {
  }

  lemma AppendAssoc<T>(a: seq<T>, b: seq<T>, c: seq<T>)
    ensures a + (b + c) == (a + b) + c
  {
  }

  predicate NoDuplicates<T(==)>(s: seq<T>) {
    forall i, j :: 0 <= i < j < |s| ==> s[i] != s[j]
  }

  lemma NoDuplicatesPrefix<T>(a: seq<T>, b: seq<T>)
    requires NoDuplicates(a + b)
    ensures NoDuplicates(a)
  {
    forall i, j | 0 <= i < j < |a|
      ensures a[i] != a[j]
    {
      assert (a + b)[i] == a[i] && (a + b)[j] == a[j];
    }
  }

  /** `a` is `b` with some elements left out and the others kept in order. */
  ghost predicate SubsequenceOf<T>(a: seq<T>, b: seq<T>)
    decreases |b|
  {
    if a == [] then true
    else if b == [] then false
    else (a[0] == b[0] && SubsequenceOf(a[1..], b[1..])) || SubsequenceOf(a, b[1..])
  }

  /** `Array.prototype.filter`: the elements that pass, in their order. */
  function Filter<T(!new)>(s: seq<T>, p: T -> bool): (r: seq<T>)
    ensures |r| <= |s|
    ensures forall x :: x in r <==> x in s && p(x)
    ensures SubsequenceOf(r, s)
    ensures forall x :: multiset(r)[x] == if p(x) then multiset(s)[x] else 0
  {
    if s == [] then []
    else
      assert s == [s[0]] + s[1..];
      if p(s[0]) then
        var rest := Filter(s[1..], p);
        assert ([s[0]] + rest)[1..] == rest;
        [s[0]] + rest
      else Filter(s[1..], p)
  }

  /** A filter every element passes changes nothing. */
  lemma {:induction false} FilterKeepsAll<T(!new)>(s: seq<T>, p: T -> bool)
    requires forall x :: x in s ==> p(x)
    ensures Filter(s, p) == s
  {
    if s != [] {
      FilterKeepsAll(s[1..], p);
      assert [s[0]] + s[1..] == s;
    }
  }

  /** Two filters in a row are one filter by the conjunction. */
  lemma {:induction false} FilterFuse<T(!new)>(s: seq<T>, p: T -> bool, q: T -> bool, both: T -> bool)
    requires forall x :: both(x) == (p(x) && q(x))
    ensures Filter(Filter(s, p), q) == Filter(s, both)
  {
    if s != [] {
      FilterFuse(s[1..], p, q, both);
      if p(s[0]) {
        assert ([s[0]] + Filter(s[1..], p))[1..] == Filter(s[1..], p);
      }
    }
  }

  /** So the order of two filters does not matter. */
  lemma FilterCommutes<T(!new)>(s: seq<T>, p: T -> bool, q: T -> bool)
    ensures Filter(Filter(s, p), q) == Filter(Filter(s, q), p)
  {
    var both := (x: T) => p(x) && q(x);
    FilterFuse(s, p, q, both);
    FilterFuse(s, q, p, both);
  }

  /** Filtering a sequence without repeats leaves none. */
  lemma {:induction false} FilterNoDuplicates<T(!new)>(s: seq<T>, p: T -> bool)
    requires NoDuplicates(s)
    ensures NoDuplicates(Filter(s, p))
  {
    if s != [] {
      var tail := s[1..];
      assert NoDuplicates(tail) by {
        forall i, j | 0 <= i < j < |tail|
          ensures tail[i] != tail[j]
        {
          assert tail[i] == s[i + 1] && tail[j] == s[j + 1];
        }
      }
      FilterNoDuplicates(tail, p);
      if p(s[0]) {
        var rest := Filter(tail, p);
        assert s[0] !in tail by {
          forall k | 0 <= k < |tail|
            ensures tail[k] != s[0]
          {
            assert tail[k] == s[k + 1];
          }
        }
        ConsIndex(s[0], rest);
      }
    }
  }

  /** An element appended at the end that fails the test is dropped. */
  lemma {:induction false} FilterDropsLast<T(!new)>(s: seq<T>, x: T, p: T -> bool)
    requires !p(x)
    ensures Filter(s + [x], p) == Filter(s, p)
  {
    if s == [] {
      assert ([] + [x])[1..] == [];
    } else {
      TailOfAppend(s, [x]);
      FilterDropsLast(s[1..], x, p);
    }
  }

  /** Filtering depends only on which elements pass. */
  lemma {:induction false} FilterExt<T(!new)>(s: seq<T>, p: T -> bool, q: T -> bool)
    requires forall x :: x in s ==> p(x) == q(x)
    ensures Filter(s, p) == Filter(s, q)
  {
    if s != [] {
      FilterExt(s[1..], p, q);
    }
  }

  /** Three filters in a row are one filter by the conjunction of the tests. */
  lemma FilterThree<T(!new)>(s: seq<T>, p: T -> bool, q: T -> bool, r: T -> bool, all: T -> bool)
    requires forall x :: all(x) == (p(x) && q(x) && r(x))
    ensures Filter(Filter(Filter(s, p), q), r) == Filter(s, all)
  {
    var pq := (x: T) => p(x) && q(x);
    FilterFuse(s, p, q, pq);
    FilterFuse(s, pq, r, all);
  }
}
